# ToolCraft package-metadata resolver, in Dafny

This project models the lazy metadata resolver in the package initialiser of
ToolCraft (`toolcraft/__init__.py`). A module-level `__getattr__` answers
dunder attributes such as `__author__`, `__homepage__` and `__keywords__` from
the installed package's metadata. The first request loads the metadata into
a process-wide cache; every later request reuses it.

The model has six modules:

- `Wrappers` (`wrappers.dfy`): `Option` and `Result`.
- `Text` (`text.dfy`): the Python `str` operations the resolver uses, over
  ASCII. These are `isspace`, `strip`, `split(c)`, `split(sep, 1)`, substring
  search, `startswith`, `lower` and `replace`. Each one comes with the lemmas
  that pin it down: `strip` removes exactly the whitespace around a trimmed
  core, and `split` and `join` invert each other.
- `MetadataRecord` (`record.dfy`): `_get_metadata`. The method `BuildRecord` is
  the imperative loop that folds the `(key, value)` items into the dictionary.
  It is proved equal to `RecordOf`, which defines the dictionary key by key:
  - a key that occurs once keeps its single string;
  - a repeated key holds the list of all its strings, in input order;
  - the keys are kept in order of first occurrence.
- `FieldParsers` (`fields.dfy`): the pure field parsers. These are the
  "Name <email>" split with its `"SpikingNeurons"` fallback, the Keywords
  split, and the normalisation of list fields and of Project-URL entries.
- `ProjectUrls` (`urls.dfy`): the two loops over the Project-URL entries. One
  is the early-exit homepage search (`FindHomepage`). The other builds the
  `__urls__` dictionary (`BuildUrls`). Each loop is proved equal to a function,
  and lemmas state what the function means.
- `Resolver` (`resolver.dfy`): the dispatch.
  - `Resolution` is the specification of the answer for a loaded record.
  - The class `PackageNamespace` holds `_metadata_cache` as an `Option<Record>`
    field, plus a ghost count of metadata loads.
  - Its `GetAttr` method fills the cache on the first call, whatever the name.
    It never reloads the cache, and it returns `Resolution` of the cached record.

The installed metadata cannot be looked up here: the model takes it as the
`installed` item sequence given to the `PackageNamespace` constructor.

Behaviours of the code that the model keeps as they are:

- `__email__` returns the trimmed text after the first `<`, up to the next `>`
  or `<`, so an email that holds a `<` is cut short.
- A repeated `Author-email` whose list contains both `"<"` and `">"` fails.
  So does any repeated `Keywords`. In Python these fail with
  `'list' object has no attribute 'split'`; the model returns
  `ListNotSplittable`.
- The error message quotes the package name `toolcraft`.

## Model

| member | source | states |
|---|---|---|
| `MetadataRecord.BuildRecord` | toolcraft/__init__.py:20-30 | the loop's dictionary is `RecordOf(items)`: each key maps to its single value, or to the list of all its values in input order, and the keys are kept in first-occurrence order |
| `MetadataRecord.RecordOfSnoc` | toolcraft/__init__.py:21-28 | one more item changes the record like one loop step: a new key is stored as a string and appended to the key order; a seen key has its string turned into a one-element list, then the value is appended |
| `MetadataRecord.RecordKeys` | toolcraft/__init__.py:20-28 | the dictionary's keys are exactly the keys occurring in the input; the key order lists each of them exactly once |
| `MetadataRecord.ValuesOfAppend` | toolcraft/__init__.py:24-26 | the values of a key are collected in input order: those of `a + b` are those of `a` followed by those of `b` |
| `MetadataRecord.SingleValue` | toolcraft/__init__.py:27-28 | a key that occurs exactly once maps to its single value as a string |
| `MetadataRecord.TwoValues` | toolcraft/__init__.py:22-26 | a key that occurs exactly twice maps to the list of both values, first one first |
| `MetadataRecord.RepeatedKey` | toolcraft/__init__.py:22-26 | a key that occurs two or more times maps to the list of all its values |
| `Text.Strip` | toolcraft/__init__.py:74 | `strip` leaves neither leading nor trailing whitespace and never lengthens the string |
| `Text.StripAround` | toolcraft/__init__.py:74 | `strip` of whitespace + trimmed core + whitespace is exactly the core |
| `Text.StripAvoids` | toolcraft/__init__.py:102 | `strip` introduces no character that was not there |
| `Text.BeforeChar` | toolcraft/__init__.py:74 | `split(c)[0]` is the longest prefix without `c`, ending at the first `c` or at the end |
| `Text.AfterChar` | toolcraft/__init__.py:77 | `split(c, 1)[1]` is what follows the first `c`: prefix, `c` and this text rebuild the string |
| `Text.Find` | toolcraft/__init__.py:126 | `", " in e`: finds the first occurrence of the pattern, and `None` only when it occurs nowhere |
| `Text.SplitOnce` | toolcraft/__init__.py:127 | `split(", ", 1)` gives two parts exactly when the separator occurs; the first part ends at the first separator and label + separator + URL rebuild the entry |
| `Text.Split` | toolcraft/__init__.py:102 | `split(",")` gives at least one part, no part holds a comma, and joining the parts with commas gives back the string |
| `Text.SplitJoin` | toolcraft/__init__.py:102 | splitting a comma-join of comma-free parts gives back the parts |
| `Text.JoinAppend` | toolcraft/__init__.py:102 | joining two non-empty runs of parts puts one separator between their joins |
| `Text.SplitAppend` | toolcraft/__init__.py:102 | `(a + c + b).split(c)` is the parts of `a` followed by the parts of `b` |
| `Text.Lower` | toolcraft/__init__.py:128 | `lower` keeps the length, lower-cases every ASCII letter and leaves no upper-case letter |
| `Text.ReplaceChar` | toolcraft/__init__.py:128 | `replace(" ", "_")` keeps the length, replaces exactly the spaces and leaves none |
| `FieldParsers.AuthorName` | toolcraft/__init__.py:73-75 | `__author__` on a bracketed value is the stripped text before the first `<` whenever that is not blank, and `"SpikingNeurons"` otherwise; either way it is non-empty, trimmed and free of `<` |
| `FieldParsers.AuthorEmail` | toolcraft/__init__.py:76-77 | `__email__` on a bracketed value is trimmed and holds neither `<` nor `>` |
| `FieldParsers.AuthorEmailOf` | toolcraft/__init__.py:77 | on any value `p + "<" + m + t` where `p` has no `<`, `m` has neither `<` nor `>` and `t` is empty or starts with `<` or `>`, the email is `m` stripped: it stops at the next `>` or `<` and drops the rest |
| `FieldParsers.AuthorRoundTrip` | toolcraft/__init__.py:67-77 | for `name <email>`, the guard holds, `__author__` gives back `name` and `__email__` gives back `email` |
| `FieldParsers.AuthorFallback` | toolcraft/__init__.py:74-75 | a blank display name before `<` gives the default `"SpikingNeurons"` |
| `FieldParsers.Kept` | toolcraft/__init__.py:102 | the kept parts are at most as many as the parts, and each is non-empty and trimmed |
| `FieldParsers.KeywordList` | toolcraft/__init__.py:99-105 | every keyword is non-empty, trimmed and comma-free |
| `FieldParsers.KeywordListIsKept` | toolcraft/__init__.py:101-104 | the empty-string guard agrees with the comprehension: the keywords are always the stripped non-blank comma-separated parts |
| `FieldParsers.KeptAppend` | toolcraft/__init__.py:102 | stripping and dropping blank parts works part by part, in order: the kept parts of `p + q` are those of `p` followed by those of `q` |
| `FieldParsers.KeywordListComma` | toolcraft/__init__.py:102 | a comma separates keywords: the keywords of `a + "," + b` are those of `a` followed by those of `b` |
| `FieldParsers.KeywordListOne` | toolcraft/__init__.py:102 | comma-free text is one keyword, stripped, or none when it is blank; with `KeywordListComma` this fixes the keywords of every string |
| `FieldParsers.KeptAvoids` | toolcraft/__init__.py:102 | stripping and dropping blank parts introduces no character absent from every part |
| `FieldParsers.KeywordsRoundTrip` | toolcraft/__init__.py:99-105 | keywords stored as `", ".join(ks)` parse back to exactly `ks`, in order; the empty list gives `""` and back |
| `FieldParsers.KeywordsExample` | toolcraft/__init__.py:102 | `"a, b,  c"` gives `["a", "b", "c"]` |
| `FieldParsers.ListField` | toolcraft/__init__.py:92-98 | a list value is returned as it is, a non-empty string as a one-element list, and an empty string or an absent field as `[]` |
| `FieldParsers.Entries` | toolcraft/__init__.py:83-85 | the Project-URL entries are the list as it is, a lone string as a one-element list, and none for an absent field |
| `FieldParsers.ListFieldOfRecord` | toolcraft/__init__.py:92-98 | the list normalisation of a built record's key is every value of that key in input order; the exception is one empty value, which gives `[]`, as does an absent key |
| `FieldParsers.EntriesOfRecord` | toolcraft/__init__.py:83-85 | the Project-URL entries scanned are every Project-URL value in input order; a lone string becomes a one-element list, and an absent field gives none |
| `ProjectUrls.HomepageUrl` | toolcraft/__init__.py:87-88 | a homepage entry holds the separator, and its `split(", ", 1)[1]` is the text after `"Homepage, "` |
| `ProjectUrls.HomepageIsFirst` | toolcraft/__init__.py:86-89 | the homepage is the text after `"Homepage, "` of the first entry starting with it, and `""` when no entry does |
| `ProjectUrls.FindHomepage` | toolcraft/__init__.py:82-89 | the early-exit loop returns `Homepage(entries)` |
| `ProjectUrls.NormalizeLabel` | toolcraft/__init__.py:128 | a normalised label keeps its length, turns each space into `_` and lower-cases every other character, so it holds no space and no upper-case letter |
| `ProjectUrls.NormalizeIdempotent` | toolcraft/__init__.py:128 | normalising a normalised label changes nothing |
| `ProjectUrls.BuildUrls` | toolcraft/__init__.py:120-129 | the loop returns `UrlMap(entries)` |
| `ProjectUrls.UrlKeysNormalized` | toolcraft/__init__.py:125-128 | no key of `__urls__` holds a space or an upper-case letter |
| `ProjectUrls.UrlMapKeys` | toolcraft/__init__.py:125-128 | a key is present exactly when some entry holds `", "` and its label normalises to that key |
| `ProjectUrls.UrlMapLastWins` | toolcraft/__init__.py:125-128 | the URL stored under a key is the text after the first `", "` of the last entry labelled with that key: later entries overwrite earlier ones |
| `ProjectUrls.HomepageInUrls` | toolcraft/__init__.py:82-129 | if the first homepage entry is also the last entry whose label normalises to `"homepage"`, then `__urls__["homepage"]` equals `__homepage__` |
| `Resolver.PackageNamespace.constructor` | toolcraft/__init__.py:33-34 | the cache starts empty and nothing has been loaded |
| `Resolver.PackageNamespace.GetAttr` | toolcraft/__init__.py:37-131 | a call with an empty cache loads the record once, even for an unknown name; a call with a filled cache never reloads or changes it; the answer is `Resolution` of the cached record, which is `RecordOf` of the installed items |
| `Resolver.Resolution` | toolcraft/__init__.py:44-131 | only `__metadata__` returns the whole record; only the author names and `__keywords__` can fail on a list that cannot be split; the three list names always return a list and `__urls__` always a table |
| `Resolver.MappedField` | toolcraft/__init__.py:62-79 | the raw value unless an author name meets a value holding both `<` and `>`; such a string gives a `<`-free display name (never empty for `__author__`) or email, and such a list fails, which is the only failure |
| `Resolver.KeywordsOf` | toolcraft/__init__.py:99-105 | a string value gives exactly its keyword list; the result fails exactly on a non-empty list, as `.split` on a list does; a success is a list of non-empty, trimmed, comma-free keywords |
| `Resolver.MetadataIsRecord` | toolcraft/__init__.py:44-45 | `__metadata__` returns the cached record itself |
| `Resolver.UnknownNames` | toolcraft/__init__.py:131 | a name raises the module's "no such attribute" error exactly when it is not one of the 19 known names, and then the message contains `has no attribute '<name>'` |
| `Resolver.UnknownMessage` | tests/test_metadata.py:15-21 | the error message contains `has no attribute '<name>'` |
| `Resolver.MappedFieldIsRaw` | toolcraft/__init__.py:62-79 | a mapped name other than the author names returns the mapped field's raw value, or `""` when the field is absent |
| `Resolver.AuthorUnbracketed` | toolcraft/__init__.py:67-79 | the author names return an Author-email string unchanged unless it holds both `<` and `>` |
| `Resolver.AuthorBracketed` | toolcraft/__init__.py:67-77 | on a bracketed Author-email string, `__author__` gives the display name and `__email__`/`__author_email__` the email |
| `Resolver.AuthorFromItems` | toolcraft/__init__.py:67-77 | metadata holding one Author-email item `name <email>` resolves `__author__` to `name` and `__email__`, `__author_email__` to `email` |
| `Resolver.RepositoryAuthor` | tests/test_metadata.py:9-10 | the package's own `Praveen Kulkarni <praveenneuron@gmail.com>` gives author `Praveen Kulkarni` and email `praveenneuron@gmail.com` |
| `Resolver.AuthorDefault` | toolcraft/__init__.py:74-75 | an Author-email `<email>` gives the author `"SpikingNeurons"` |
| `Resolver.ListNamesFromItems` | toolcraft/__init__.py:92-119 | `__classifiers__`, `__requires_dist__` and `__provides_extra__` always return a list: all values of the key in input order, or `[]` for an absent key or a single empty value |
| `Resolver.KeywordsFromItems` | toolcraft/__init__.py:99-105 | `__keywords__` is `[]` with no Keywords item, the keyword list of `s` for a single item `s` (non-empty, trimmed, comma-free keywords), and fails with the list-split error for a repeated item |
| `Resolver.KeywordsAbsent` | toolcraft/__init__.py:100-105 | with no Keywords item, `__keywords__` is `[]` |
| `Resolver.KeywordsSingle` | toolcraft/__init__.py:100-105 | a single Keywords item `s` anywhere among other items makes `__keywords__` the keyword list of `s` |
| `Resolver.KeywordsJoined` | toolcraft/__init__.py:99-105 | a single Keywords item `", ".join(ks)` resolves to `ks` |
| `Resolver.HomepageFromItems` | toolcraft/__init__.py:82-89 | `__homepage__` and `__url__` both give the homepage of all Project-URL values in input order |
| `Resolver.UrlsFromItems` | toolcraft/__init__.py:120-129 | `__urls__` gives the label-to-URL dictionary of all Project-URL values in input order |

## Left out

- The metadata lookup itself (`importlib.metadata` / `importlib_metadata` and the Python-version branch, toolcraft/__init__.py:12-17) is a call into the platform. The installed items are a constructor parameter. A missing package (the lookup's own error) is therefore not modelled.
- Python whitespace and case outside ASCII: `strip` removes only ASCII whitespace (tab through carriage return, the four separators 0x1C-0x1F and space), and `lower` folds only `A`-`Z`.
- Python's attribute lookup: real module attributes such as `__version__` (toolcraft/__init__.py:6) and `__name__` never reach `__getattr__`. The dispatch is modelled as written, including its `"__name__"` table entry.
- Object identity and mutability: `__metadata__` returns the cached dictionary object. `__classifiers__`, `__requires_dist__` and `__provides_extra__` on a repeated key (toolcraft/__init__.py:94-96, 108-110, 115-117), and a mapped name on a repeated field (line 79), return the cached list object itself. A caller that mutates any of these changes every later answer. The model returns values, so "the same object twice" is modelled as "the same value, never reloaded", and mutation through an alias is not captured.
- ProjectUrls.UrlMap: the `__urls__` dictionary is a Dafny `map`, which has no order. Python's dictionary keeps insertion order, and an overwritten label keeps its first position (toolcraft/__init__.py:121-129). The model keeps the keys and their URLs but not the order of `list(__urls__)`.
- Both failures are Python `AttributeError`s. The model keeps them apart as `UnknownAttribute` and `ListNotSplittable` and gives each its message text.
- Thread safety of the cache: the package is single-threaded.
- The command-line entry points (toolcraft/main.py, toolcraft/cli.py), the build script (build_tools.py), scripts/verify_setup.py, the documentation configuration (docs/conf.py, docs/_config.py) and examples/metadata_demo.py are out of scope. They are subprocess, printing and configuration code with no logic of the resolver.
