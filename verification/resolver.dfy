/**
 * The module-level `__getattr__` of the package: on the first request it loads
 * the metadata record and caches it for good, then it answers the requested
 * dunder name from the record: the record itself, a mapped field (with the
 * "Name <email>" split for the author names), the homepage, a list field, the
 * keywords, the URL dictionary, or an AttributeError.
 */
module Resolver {
  import opened Wrappers
  import opened Text
  import opened MetadataRecord
  import opened FieldParsers
  import opened ProjectUrls

  /** The package's `__name__`, which the AttributeError message quotes. */
  const ModuleName: string := "toolcraft"

  /** What a dynamic attribute evaluates to. */
  datatype Attr =
    | Str(text: string)
    | StrList(texts: seq<string>)
    | UrlTable(urls: map<string, string>)
    | Whole(record: Record)

  /** The AttributeErrors `__getattr__` raises: its own for an unknown name, and
      the one Python raises when `.split` is applied to a list value. */
  datatype Failure = UnknownAttribute(namespace: string, name: string) | ListNotSplittable

  function Message(f: Failure): string {
    match f
    case UnknownAttribute(m, n) => "module '" + m + "' has no attribute '" + n + "'"
    case ListNotSplittable => "'list' object has no attribute 'split'"
  }

  /** The static table from dunder names to metadata keys. */
  const FieldFor: map<string, string> := map[
    "__author__" := "Author-email",
    "__author_email__" := "Author-email",
    "__email__" := "Author-email",
    "__maintainer__" := "Maintainer",
    "__maintainer_email__" := "Maintainer-email",
    "__license__" := "License",
    "__description__" := "Summary",
    "__summary__" := "Summary",
    "__download_url__" := "Download-URL",
    "__requires_python__" := "Requires-Python",
    "__name__" := "Name"
  ]

  /** The mapped names whose value gets the "Name <email>" split. */
  const AuthorNames: set<string> := {"__author__", "__email__", "__author_email__"}

  /** The list-valued names and the keys they read. */
  const ListFieldFor: map<string, string> := map[
    "__classifiers__" := "Classifier",
    "__requires_dist__" := "Requires-Dist",
    "__provides_extra__" := "Provides-Extra"
  ]

  /** Every name `__getattr__` answers. */
  const KnownNames: set<string> :=
    FieldFor.Keys + ListFieldFor.Keys +
    {"__metadata__", "__homepage__", "__url__", "__keywords__", "__urls__"}

  /** `"<" in value and ">" in value`: substring tests on a string, element
      tests on a list. */
  predicate Bracketed(v: Value) {
    match v
    case Scalar(s) => HasAngleBrackets(s)
    case Multi(xs) => "<" in xs && ">" in xs
  }

  /** A stored value returned as it is. */
  function FromValue(v: Value): Attr {
    match v
    case Scalar(s) => Str(s)
    case Multi(xs) => StrList(xs)
  }

  /** `record.get(key, "")`. */
  function FieldOrEmpty(rec: Record, key: string): Value {
    Lookup(rec, key).GetOr(Scalar(""))
  }

  /** A mapped name: the raw value, except for the author names on a bracketed
      value, which a string splits into a display name or an email (neither
      holding `<`) and a list cannot be split at all. */
  function MappedField(name: string, v: Value): (r: Result<Attr, Failure>)
    ensures !(name in AuthorNames && Bracketed(v)) ==> r == Success(FromValue(v))
    ensures r.Failure? <==> name in AuthorNames && v.Multi? && Bracketed(v)
    ensures r.Failure? ==> r.error == ListNotSplittable
    ensures name in AuthorNames && v.Scalar? && Bracketed(v) ==>
      r.Success? && r.value.Str? && '<' !in r.value.text && (name == "__author__" ==> r.value.text != "")
  {
    if name in AuthorNames && Bracketed(v) then
      match v
      case Scalar(s) => Success(Str(if name == "__author__" then AuthorName(s) else AuthorEmail(s)))
      case Multi(_) => Failure(ListNotSplittable)
    else Success(FromValue(v))
  }

  /** `__keywords__` on the Keywords value: a falsy value gives [], a string is
      split, a non-empty list cannot be split. */
  function KeywordsOf(v: Value): (r: Result<Attr, Failure>)
    ensures v.Scalar? ==> r == Success(StrList(KeywordList(v.text)))
    ensures r.Failure? <==> v.Multi? && v.texts != []
    ensures r.Failure? ==> r.error == ListNotSplittable
    ensures r.Success? ==> r.value.StrList? && forall k | k in r.value.texts :: k != "" && Trimmed(k) && ',' !in k
  {
    match v
    case Scalar(s) => Success(StrList(KeywordList(s)))
    case Multi(xs) => if xs == [] then Success(StrList([])) else Failure(ListNotSplittable)
  }

  /** What `__getattr__(name)` returns or raises once the record is loaded:
      only `__metadata__` gives the record, only the author names and
      `__keywords__` can hit a list that cannot be split, the list names always
      give a list and `__urls__` always a table. */
  function Resolution(rec: Record, name: string): (r: Result<Attr, Failure>)
    ensures r.Success? && r.value.Whole? <==> name == "__metadata__"
    ensures r.Failure? && r.error.ListNotSplittable? ==> name in AuthorNames || name == "__keywords__"
    ensures name in ListFieldFor ==> r.Success? && r.value.StrList?
    ensures name == "__urls__" ==> r.Success? && r.value.UrlTable?
  {
    if name == "__metadata__" then Success(Whole(rec))
    else if name in FieldFor then MappedField(name, FieldOrEmpty(rec, FieldFor[name]))
    else if name == "__homepage__" || name == "__url__" then
      Success(Str(Homepage(Entries(Lookup(rec, "Project-URL")))))
    else if name in ListFieldFor then Success(StrList(ListField(Lookup(rec, ListFieldFor[name]))))
    else if name == "__keywords__" then KeywordsOf(FieldOrEmpty(rec, "Keywords"))
    else if name == "__urls__" then Success(UrlTable(UrlMap(Entries(Lookup(rec, "Project-URL")))))
    else Failure(UnknownAttribute(ModuleName, name))
  }

  /** `__metadata__` returns the record itself. */
  lemma MetadataIsRecord(rec: Record)
    ensures Resolution(rec, "__metadata__") == Success(Whole(rec))
  {
  }

  /** The "no such attribute" message names the requested attribute. */
  lemma UnknownMessage(name: string)
    ensures Contains(Message(UnknownAttribute(ModuleName, name)), "has no attribute '" + name + "'")
  {
    var msg := Message(UnknownAttribute(ModuleName, name));
    var needle := "has no attribute '" + name + "'";
    var lead := "module '" + ModuleName + "' ";
    assert msg == lead + needle;
    assert OccursAt(msg, needle, |lead|) by {
      assert msg[|lead|..|lead| + |needle|] == needle;
    }
  }

  /** A name raises "has no attribute" exactly when it is not a known name. */
  lemma UnknownNames(rec: Record, name: string)
    ensures Resolution(rec, name) == Failure(UnknownAttribute(ModuleName, name)) <==> name !in KnownNames
    ensures Resolution(rec, name).Failure? && Resolution(rec, name).error.UnknownAttribute? <==>
      name !in KnownNames
    ensures name !in KnownNames ==>
      Contains(Message(Resolution(rec, name).error), "has no attribute '" + name + "'")
  {
    if name !in KnownNames {
      UnknownMessage(name);
    } else if name in FieldFor {
      assert Resolution(rec, name).Success? || Resolution(rec, name) == Failure(ListNotSplittable);
    } else if name in ListFieldFor {
      assert Resolution(rec, name).Success?;
    } else if name == "__keywords__" {
      assert Resolution(rec, name) == KeywordsOf(FieldOrEmpty(rec, "Keywords"));
    } else {
      assert Resolution(rec, name).Success?;
    }
  }

  /** A mapped name other than the author names returns the raw field value,
      or "" when the field is absent. */
  lemma MappedFieldIsRaw(rec: Record, name: string)
    requires name in FieldFor && name !in AuthorNames
    ensures FieldFor[name] !in rec.fields ==> Resolution(rec, name) == Success(Str(""))
    ensures FieldFor[name] in rec.fields ==>
      Resolution(rec, name) == Success(FromValue(rec.fields[FieldFor[name]]))
  {
  }

  /** The author names return an Author-email string unchanged unless it holds
      both a `<` and a `>`. */
  lemma AuthorUnbracketed(rec: Record, name: string, s: string)
    requires name in AuthorNames && FieldOrEmpty(rec, "Author-email") == Scalar(s)
    requires !HasAngleBrackets(s)
    ensures Resolution(rec, name) == Success(Str(s))
  {
  }

  lemma AuthorNameResolved(rec: Record, s: string)
    requires FieldOrEmpty(rec, "Author-email") == Scalar(s) && HasAngleBrackets(s)
    ensures Resolution(rec, "__author__") == Success(Str(AuthorName(s)))
  {
  }

  lemma EmailResolved(rec: Record, s: string, n: string)
    requires n == "__email__" || n == "__author_email__"
    requires FieldOrEmpty(rec, "Author-email") == Scalar(s) && HasAngleBrackets(s)
    ensures Resolution(rec, n) == Success(Str(AuthorEmail(s)))
  {
    assert n != "__author__" by { assert |n| != |"__author__"|; }
    assert n != "__metadata__";
    assert n in FieldFor && FieldFor[n] == "Author-email" && n in AuthorNames;
    assert MappedField(n, Scalar(s)) == Success(Str(AuthorEmail(s)));
  }

  /** On an Author-email string holding both brackets, `__author__` is the
      display name and `__email__` and `__author_email__` the bracketed email. */
  lemma AuthorBracketed(rec: Record, s: string)
    requires FieldOrEmpty(rec, "Author-email") == Scalar(s) && HasAngleBrackets(s)
    ensures Resolution(rec, "__author__") == Success(Str(AuthorName(s)))
    ensures Resolution(rec, "__email__") == Success(Str(AuthorEmail(s)))
    ensures Resolution(rec, "__author_email__") == Success(Str(AuthorEmail(s)))
  {
    AuthorNameResolved(rec, s);
    EmailResolved(rec, s, "__email__");
    EmailResolved(rec, s, "__author_email__");
  }

  /** A single Author-email item "Name <email>" resolves to the name for
      `__author__` and to the email for `__email__` and `__author_email__`. */
  lemma AuthorFromItems(a: seq<Item>, name: string, email: string, b: seq<Item>)
    requires "Author-email" !in KeysOf(a) && "Author-email" !in KeysOf(b)
    requires name != "" && Trimmed(name) && '<' !in name
    requires Trimmed(email) && '<' !in email && '>' !in email
    ensures Resolution(RecordOf(a + [("Author-email", name + " <" + email + ">")] + b), "__author__") ==
      Success(Str(name))
    ensures Resolution(RecordOf(a + [("Author-email", name + " <" + email + ">")] + b), "__email__") ==
      Success(Str(email))
    ensures Resolution(RecordOf(a + [("Author-email", name + " <" + email + ">")] + b), "__author_email__") ==
      Success(Str(email))
  {
    var v := name + " <" + email + ">";
    var rec := RecordOf(a + [("Author-email", v)] + b);
    SingleValue(a, "Author-email", v, b);
    assert FieldOrEmpty(rec, "Author-email") == Scalar(v);
    AuthorRoundTrip(name, email);
    assert HasAngleBrackets(v) && AuthorName(v) == name && AuthorEmail(v) == email;
    AuthorBracketed(rec, v);
  }

  /** The repository's own metadata: author "Praveen Kulkarni", email
      "praveenneuron@gmail.com". */
  lemma RepositoryAuthor()
    ensures Resolution(RecordOf([("Author-email", "Praveen Kulkarni <praveenneuron@gmail.com>")]), "__author__") ==
      Success(Str("Praveen Kulkarni"))
    ensures Resolution(RecordOf([("Author-email", "Praveen Kulkarni <praveenneuron@gmail.com>")]), "__email__") ==
      Success(Str("praveenneuron@gmail.com"))
  {
    var name, email := "Praveen Kulkarni", "praveenneuron@gmail.com";
    assert '<' !in name && '<' !in email && '>' !in email;
    assert Trimmed(name) && Trimmed(email);
    var items := [("Author-email", name + " <" + email + ">")];
    assert name + " <" + email + ">" == "Praveen Kulkarni <praveenneuron@gmail.com>";
    assert [] + items + [] == items;
    assert KeysOf([]) == {};
    AuthorFromItems([], name, email, []);
  }

  /** An empty display name falls back to the organisation name. */
  lemma AuthorDefault(a: seq<Item>, email: string, b: seq<Item>)
    requires "Author-email" !in KeysOf(a) && "Author-email" !in KeysOf(b)
    requires '>' in email
    ensures Resolution(RecordOf(a + [("Author-email", "<" + email)] + b), "__author__") ==
      Success(Str(DefaultAuthor))
  {
    var rec := RecordOf(a + [("Author-email", "<" + email)] + b);
    SingleValue(a, "Author-email", "<" + email, b);
    AuthorFallback([], email);
    assert [] + "<" + email == "<" + email;
    AuthorBracketed(rec, "<" + email);
  }

  /** `__classifiers__`, `__requires_dist__` and `__provides_extra__` always
      give a list: every value of the key in input order, except that one empty
      value or an absent key gives the empty list. */
  lemma ListNamesFromItems(items: seq<Item>, name: string)
    requires name in ListFieldFor
    ensures Resolution(RecordOf(items), name) == Success(StrList(
      if ValuesOf(items, ListFieldFor[name]) == [""] then [] else ValuesOf(items, ListFieldFor[name])))
  {
    var rec := RecordOf(items);
    assert Resolution(rec, name) == Success(StrList(ListField(Lookup(rec, ListFieldFor[name]))));
    ListFieldOfRecord(items, ListFieldFor[name]);
  }

  /** `__keywords__`: no Keywords item gives `[]`, a single item `s` gives the
      keywords of `s` (non-empty, trimmed, comma-free), and a repeated Keywords
      item cannot be split. */
  lemma KeywordsFromItems(items: seq<Item>)
    ensures |ValuesOf(items, "Keywords")| <= 1 ==>
      && Resolution(RecordOf(items), "__keywords__").Success?
      && Resolution(RecordOf(items), "__keywords__").value.StrList?
      && forall k | k in Resolution(RecordOf(items), "__keywords__").value.texts ::
           k != "" && Trimmed(k) && ',' !in k
    ensures |ValuesOf(items, "Keywords")| >= 2 ==>
      Resolution(RecordOf(items), "__keywords__") == Failure(ListNotSplittable)
    ensures ValuesOf(items, "Keywords") == [] ==>
      Resolution(RecordOf(items), "__keywords__") == Success(StrList([]))
    ensures |ValuesOf(items, "Keywords")| == 1 ==>
      Resolution(RecordOf(items), "__keywords__") == Success(StrList(KeywordList(ValuesOf(items, "Keywords")[0])))
  {
    var rec := RecordOf(items);
    var vs := ValuesOf(items, "Keywords");
    ValuesOfEmpty(items, "Keywords");
    assert Resolution(rec, "__keywords__") == KeywordsOf(FieldOrEmpty(rec, "Keywords"));
    if vs == [] {
      assert FieldOrEmpty(rec, "Keywords") == Scalar("");
    } else {
      assert FieldOrEmpty(rec, "Keywords") == Grouped(vs);
    }
  }

  /** No Keywords field gives no keywords. */
  lemma KeywordsAbsent(items: seq<Item>)
    requires "Keywords" !in KeysOf(items)
    ensures Resolution(RecordOf(items), "__keywords__") == Success(StrList([]))
  {
  }

  /** A single Keywords item `s` gives the keywords of `s`. */
  lemma KeywordsSingle(a: seq<Item>, s: string, b: seq<Item>)
    requires "Keywords" !in KeysOf(a) && "Keywords" !in KeysOf(b)
    ensures Resolution(RecordOf(a + [("Keywords", s)] + b), "__keywords__") ==
      Success(StrList(KeywordList(s)))
  {
    SingleValue(a, "Keywords", s, b);
  }

  /** Keywords stored as `", ".join(ks)` come back as `ks`. */
  lemma KeywordsJoined(a: seq<Item>, ks: seq<string>, b: seq<Item>)
    requires "Keywords" !in KeysOf(a) && "Keywords" !in KeysOf(b)
    requires forall k | k in ks :: k != "" && Trimmed(k) && ',' !in k
    ensures Resolution(RecordOf(a + [("Keywords", Join(ks, ", "))] + b), "__keywords__") ==
      Success(StrList(ks))
  {
    SingleValue(a, "Keywords", Join(ks, ", "), b);
    KeywordsRoundTrip(ks);
  }

  /** `__homepage__` and `__url__` are the homepage of all Project-URL values in input order. */
  lemma HomepageFromItems(items: seq<Item>)
    ensures Resolution(RecordOf(items), "__homepage__") == Success(Str(Homepage(ValuesOf(items, "Project-URL"))))
    ensures Resolution(RecordOf(items), "__url__") == Success(Str(Homepage(ValuesOf(items, "Project-URL"))))
  {
    EntriesOfRecord(items, "Project-URL");
  }

  /** `__urls__` is the label-to-URL dictionary of all Project-URL values in input order. */
  lemma UrlsFromItems(items: seq<Item>)
    ensures Resolution(RecordOf(items), "__urls__") == Success(UrlTable(UrlMap(ValuesOf(items, "Project-URL"))))
  {
    EntriesOfRecord(items, "Project-URL");
  }

  /** The package namespace with its process-wide metadata cache. */
  class PackageNamespace {
    /** The installed package's metadata items: what the platform's metadata
        store answers for "toolcraft". */
    const installed: seq<Item>
    /** `_metadata_cache`: empty until the first dynamic attribute request. */
    var cache: Option<Record>
    /** How many times the metadata store has been queried. */
    ghost var loads: nat

    /** The cache, once filled, holds the record of the installed metadata, and
        it was filled by exactly one load. */
    ghost predicate Valid()
      reads this
    {
      match cache
      case None => loads == 0
      case Some(rec) => loads == 1 && rec == RecordOf(installed)
    }

    constructor (installed: seq<Item>)
      ensures Valid()
      ensures this.installed == installed && cache == None
    {
      this.installed := installed;
      cache := None;
      loads := 0;
    }

    /** `__getattr__(name)`: fill the cache if it is empty, whatever the name,
        then resolve the name against the cached record. */
    method GetAttr(name: string) returns (r: Result<Attr, Failure>)
      requires Valid()
      modifies this
      ensures Valid()
      ensures cache == Some(RecordOf(installed))
      ensures old(cache).Some? ==> cache == old(cache) && loads == old(loads)
      ensures old(cache).None? ==> loads == old(loads) + 1
      ensures r == Resolution(cache.value, name)
    {
      if cache.None? {
        var loaded := BuildRecord(installed);
        cache := Some(loaded);
        loads := loads + 1;
      }
      var rec := cache.value;
      if name == "__metadata__" {
        return Success(Whole(rec));
      }
      if name in FieldFor {
        var value := FieldOrEmpty(rec, FieldFor[name]);
        if name in AuthorNames && Bracketed(value) {
          match value
          case Multi(_) =>
            return Failure(ListNotSplittable);
          case Scalar(s) =>
            if name == "__author__" {
              return Success(Str(AuthorName(s)));
            }
            return Success(Str(AuthorEmail(s)));
        }
        return Success(FromValue(value));
      }
      if name == "__homepage__" || name == "__url__" {
        var url := FindHomepage(Entries(Lookup(rec, "Project-URL")));
        return Success(Str(url));
      }
      if name in ListFieldFor {
        return Success(StrList(ListField(Lookup(rec, ListFieldFor[name]))));
      } else if name == "__keywords__" {
        return KeywordsOf(FieldOrEmpty(rec, "Keywords"));
      } else if name == "__urls__" {
        var urls := BuildUrls(Entries(Lookup(rec, "Project-URL")));
        return Success(UrlTable(urls));
      }
      return Failure(UnknownAttribute(ModuleName, name));
    }
  }
}
