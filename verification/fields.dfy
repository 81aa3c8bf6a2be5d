/**
 * The per-field parsers of `__getattr__`: the "Name <email>" split of
 * Author-email, the comma-separated Keywords list and the normalisation of a
 * possibly-repeated field to a list.
 */
module FieldParsers {
  import opened Wrappers
  import opened Text
  import opened MetadataRecord

  /** The organisation name `__author__` falls back to. */
  const DefaultAuthor: string := "SpikingNeurons"

  /** The guard of the "Name <email>" case on a string value: `"<" in value and ">" in value`. */
  predicate HasAngleBrackets(s: string) {
    '<' in s && '>' in s
  }

  /** `__author__` on a bracketed value: the trimmed text before the first `<`,
      or the default organisation name when that text is blank. */
  function AuthorName(s: string): (r: string)
    ensures r != "" && Trimmed(r) && '<' !in r
    ensures r == DefaultAuthor || r == Strip(BeforeChar(s, '<'))
    ensures Strip(BeforeChar(s, '<')) != "" ==> r == Strip(BeforeChar(s, '<'))
  {
    var name := Strip(BeforeChar(s, '<'));
    StripAvoids(BeforeChar(s, '<'), '<');
    if name != "" then name else DefaultAuthor
  }

  /** `__email__` on a bracketed value: the trimmed text after the first `<`, up
      to the next `<` or `>`. */
  function AuthorEmail(s: string): (r: string)
    requires '<' in s
    ensures Trimmed(r) && '<' !in r && '>' !in r
  {
    var inner := BeforeChar(BeforeChar(AfterChar(s, '<'), '<'), '>');
    assert '<' !in inner;
    StripAvoids(inner, '<');
    StripAvoids(inner, '>');
    Strip(inner)
  }

  /** The email on every bracketed value: split the value as `p + "<" + m + t`
      where `p` is the text before the first `<` and `m` runs up to the next `<`
      or `>` (or the end); the email is `m` trimmed, and whatever `t` holds is
      dropped. */
  lemma AuthorEmailOf(p: string, m: string, t: string)
    requires '<' !in p && '<' !in m && '>' !in m
    requires t == [] || t[0] == '<' || t[0] == '>'
    ensures '<' in p + "<" + m + t
    ensures AuthorEmail(p + "<" + m + t) == Strip(m)
  {
    var s := p + "<" + m + t;
    assert s[|p|] == '<';
    BeforeCharOfJoin(p, '<', m + t);
    assert s == p + ['<'] + (m + t);
    var after := AfterChar(s, '<');
    assert after == s[|p| + 1..] == m + t;
    BeforeCharConcat(m, t, '<');
    var u := BeforeChar(t, '<');
    assert u == [] || u[0] == '>';
    BeforeCharConcat(m, u, '>');
    assert BeforeChar(u, '>') == [];
    assert m + [] == m;
  }

  lemma AuthorNameRoundTrip(name: string, email: string)
    requires name != "" && Trimmed(name) && '<' !in name
    ensures AuthorName(name + " <" + email + ">") == name
  {
    var s := name + " <" + email + ">";
    assert s == (name + " ") + ['<'] + (email + ">");
    assert '<' !in name + " ";
    BeforeCharOfJoin(name + " ", '<', email + ">");
    StripAround([], name, " ");
    assert [] + name + " " == name + " ";
  }

  lemma AuthorEmailRoundTrip(name: string, email: string)
    requires '<' !in name
    requires Trimmed(email) && '<' !in email && '>' !in email
    ensures '<' in name + " <" + email + ">"
    ensures AuthorEmail(name + " <" + email + ">") == email
  {
    var s := name + " <" + email + ">";
    var head, tail := name + " ", email + ">";
    assert s == head + ['<'] + tail;
    assert s[|head|] == '<';
    assert '<' !in head;
    BeforeCharOfJoin(head, '<', tail);
    var after := AfterChar(s, '<');
    assert after == s[|head| + 1..];
    assert after == tail;
    assert '<' !in tail;
    BeforeCharAbsent(tail, '<');
    assert tail == email + ['>'] + [];
    BeforeCharOfJoin(email, '>', []);
    StripAround([], email, []);
    assert [] + email + [] == email;
  }

  /** "Name <email>" splits back into its name and its email. */
  lemma AuthorRoundTrip(name: string, email: string)
    requires name != "" && Trimmed(name) && '<' !in name
    requires Trimmed(email) && '<' !in email && '>' !in email
    ensures HasAngleBrackets(name + " <" + email + ">")
    ensures AuthorName(name + " <" + email + ">") == name
    ensures AuthorEmail(name + " <" + email + ">") == email
  {
    var s := name + " <" + email + ">";
    assert s[|s| - 1] == '>';
    AuthorNameRoundTrip(name, email);
    AuthorEmailRoundTrip(name, email);
  }

  /** A blank display name gives the default organisation name. */
  lemma AuthorFallback(blank: string, email: string)
    requires AllSpace(blank) && '>' in email
    ensures HasAngleBrackets(blank + "<" + email)
    ensures AuthorName(blank + "<" + email) == DefaultAuthor
  {
    var s := blank + "<" + email;
    assert s == blank + ['<'] + email;
    var j :| 0 <= j < |email| && email[j] == '>';
    assert s[|blank| + 1 + j] == '>';
    assert '<' !in blank by {
      forall i | 0 <= i < |blank| ensures blank[i] != '<' { assert IsSpace(blank[i]); }
    }
    BeforeCharOfJoin(blank, '<', email);
    StripAround(blank, [], []);
    assert blank + [] + [] == blank;
  }

  /** `[k.strip() for k in parts if k.strip()]`. */
  function Kept(parts: seq<string>): (ks: seq<string>)
    ensures |ks| <= |parts|
    ensures forall k | k in ks :: k != "" && Trimmed(k)
  {
    if parts == [] then []
    else
      var k := Strip(parts[0]);
      (if k != "" then [k] else []) + Kept(parts[1..])
  }

  lemma KeptCons(p: string, rest: seq<string>)
    ensures Kept([p] + rest) == (if Strip(p) != "" then [Strip(p)] else []) + Kept(rest)
  {
    assert ([p] + rest)[1..] == rest;
  }

  /** A character absent from every part is absent from every keyword. */
  lemma {:induction false} KeptAvoids(parts: seq<string>, c: char)
    requires forall p | p in parts :: c !in p
    ensures forall k | k in Kept(parts) :: c !in k
  {
    if parts != [] {
      assert forall p | p in parts[1..] :: p in parts;
      KeptAvoids(parts[1..], c);
      StripAvoids(parts[0], c);
    }
  }

  /** The `__keywords__` list of a Keywords string: split on commas, each part
      trimmed, blank parts dropped; an empty string gives no keywords. */
  function KeywordList(s: string): (ks: seq<string>)
    ensures forall k | k in ks :: k != "" && Trimmed(k) && ',' !in k
  {
    if s == "" then []
    else
      var parts := Split(s, ',');
      KeptAvoids(parts, ',');
      Kept(parts)
  }

  /** The empty-string guard is no special case: `"".split(",")` is `[""]`, which keeps nothing. */
  lemma KeywordListIsKept(s: string)
    ensures KeywordList(s) == Kept(Split(s, ','))
  {
    if s == "" {
      assert Split(s, ',') == [""];
      StripAround([], [], []);
    }
  }

  /** Keeping distributes over concatenation of the parts. */
  lemma {:induction false} KeptAppend(p: seq<string>, q: seq<string>)
    ensures Kept(p + q) == Kept(p) + Kept(q)
  {
    if p == [] {
      assert p + q == q;
    } else {
      assert (p + q)[1..] == p[1..] + q;
      KeptAppend(p[1..], q);
    }
  }

  /** A comma separates keywords: the keywords of `a,b` are those of `a`
      followed by those of `b`. */
  lemma KeywordListComma(a: string, b: string)
    ensures KeywordList(a + [','] + b) == KeywordList(a) + KeywordList(b)
  {
    KeywordListIsKept(a + [','] + b);
    KeywordListIsKept(a);
    KeywordListIsKept(b);
    SplitAppend(a, b, ',');
    KeptAppend(Split(a, ','), Split(b, ','));
  }

  /** Text without a comma is one keyword, stripped, or none when blank. */
  lemma KeywordListOne(s: string)
    requires ',' !in s
    ensures KeywordList(s) == if Strip(s) == "" then [] else [Strip(s)]
  {
    KeywordListIsKept(s);
    BeforeCharAbsent(s, ',');
    assert Split(s, ',') == [s];
    KeptCons(s, []);
  }

  /** Each keyword preceded by a space. */
  function Spaced(ks: seq<string>): (r: seq<string>)
    ensures |r| == |ks|
  {
    seq(|ks|, i requires 0 <= i < |ks| => " " + ks[i])
  }

  lemma {:induction false} JoinSpaced(k: string, ks: seq<string>)
    ensures Join([k] + ks, ", ") == Join([k] + Spaced(ks), ",")
    decreases |ks|
  {
    if ks != [] {
      JoinSpaced(ks[0], ks[1..]);
      var sp := Spaced(ks[1..]);
      assert Spaced(ks) == [" " + ks[0]] + sp;
      assert ([k] + ks)[1..] == [ks[0]] + ks[1..];
      assert ([k] + Spaced(ks))[1..] == [" " + ks[0]] + sp;
      JoinPrefix(" ", [ks[0]] + sp, ",");
      assert ([ks[0]] + sp)[1..] == sp;
    }
  }

  lemma {:induction false} KeptSpaced(ks: seq<string>)
    requires forall k | k in ks :: k != "" && Trimmed(k)
    ensures Kept(Spaced(ks)) == ks
  {
    if ks != [] {
      assert Spaced(ks)[1..] == Spaced(ks[1..]);
      assert forall k | k in ks[1..] :: k in ks;
      KeptSpaced(ks[1..]);
      StripAround(" ", ks[0], []);
      assert " " + ks[0] + [] == Spaced(ks)[0];
      assert ks == [ks[0]] + ks[1..];
    }
  }

  /** Keywords written as `", ".join(ks)` parse back to `ks`. */
  lemma KeywordsRoundTrip(ks: seq<string>)
    requires forall k | k in ks :: k != "" && Trimmed(k) && ',' !in k
    ensures KeywordList(Join(ks, ", ")) == ks
  {
    if ks != [] {
      var rest := ks[1..];
      assert ks == [ks[0]] + rest;
      JoinSpaced(ks[0], rest);
      var parts := [ks[0]] + Spaced(rest);
      assert forall p | p in parts :: ',' !in p by {
        forall p | p in parts ensures ',' !in p {
          var i :| 0 <= i < |parts| && parts[i] == p;
          if i > 0 { assert p == " " + rest[i - 1]; }
        }
      }
      SplitJoin(parts, ',');
      assert Join(ks, ", ") != "" by {
        if |ks| > 1 { assert Join(ks, ", ") == ks[0] + ", " + Join(rest, ", "); }
      }
      assert forall k | k in rest :: k in ks;
      KeptSpaced(rest);
      StripAround([], ks[0], []);
      assert [] + ks[0] + [] == ks[0];
      assert parts[1..] == Spaced(rest);
    }
  }

  lemma KeywordsExampleSplit()
    ensures Split("a, b,  c", ',') == ["a", " b", "  c"]
  {
    var parts := ["a", " b", "  c"];
    assert Join(parts[2..], [',']) == "  c";
    assert Join(parts[1..], [',']) == " b,  c";
    assert Join(parts, [',']) == "a, b,  c";
    assert ',' !in parts[0] && ',' !in parts[1] && ',' !in parts[2];
    SplitJoin(parts, ',');
  }

  lemma KeptOfThree(p0: string, p1: string, p2: string)
    requires Strip(p0) != "" && Strip(p1) != "" && Strip(p2) != ""
    ensures Kept([p0, p1, p2]) == [Strip(p0), Strip(p1), Strip(p2)]
  {
    KeptCons(p2, []);
    KeptCons(p1, [p2]);
    KeptCons(p0, [p1, p2]);
    assert [p2] == [p2] + [];
    assert [p1, p2] == [p1] + [p2];
    assert [p0, p1, p2] == [p0] + [p1, p2];
  }

  lemma KeywordsExampleKept()
    ensures Kept(["a", " b", "  c"]) == ["a", "b", "c"]
  {
    var a, b, c := "a", "b", "c";
    assert Trimmed(a) && Trimmed(b) && Trimmed(c);
    assert AllSpace(" ") && AllSpace("  ");
    StripAround([], a, []);
    StripAround(" ", b, []);
    StripAround("  ", c, []);
    assert [] + a + [] == "a";
    assert " " + b + [] == " b";
    assert "  " + c + [] == "  c";
    KeptOfThree("a", " b", "  c");
  }

  /** Keywords "a, b,  c" give ["a", "b", "c"]. */
  lemma KeywordsExample()
    ensures KeywordList("a, b,  c") == ["a", "b", "c"]
  {
    KeywordsExampleSplit();
    KeywordsExampleKept();
  }

  /** The `__classifiers__`, `__requires_dist__` and `__provides_extra__`
      normalisation: a list as it is, a non-empty string as a one-element list,
      an absent field or an empty string as the empty list. */
  function ListField(v: Option<Value>): (r: seq<string>)
    ensures v.None? ==> r == []
    ensures v.Some? && v.value.Multi? ==> r == v.value.texts
    ensures v.Some? && v.value.Scalar? ==> r == (if v.value.text == "" then [] else [v.value.text])
  {
    match v
    case None => []
    case Some(Multi(xs)) => xs
    case Some(Scalar(s)) => if s != "" then [s] else []
  }

  /** The Project-URL entries: a list as it is, a single string as a
      one-element list, an absent field as no entries. */
  function Entries(v: Option<Value>): (r: seq<string>)
    ensures v.None? ==> r == []
    ensures v.Some? ==> r == AsValues(v.value)
  {
    match v
    case None => []
    case Some(x) => AsValues(x)
  }

  /** For a key the record builder produced, the list normalisation returns
      every value of that key in input order, except that a single empty value
      reads as no value. */
  lemma ListFieldOfRecord(items: seq<Item>, key: string)
    ensures ListField(Lookup(RecordOf(items), key)) ==
      (if ValuesOf(items, key) == [""] then [] else ValuesOf(items, key))
  {
    ValuesOfEmpty(items, key);
  }

  /** The Project-URL entries seen by the homepage and urls lookups are every
      Project-URL value, in input order. */
  lemma EntriesOfRecord(items: seq<Item>, key: string)
    ensures Entries(Lookup(RecordOf(items), key)) == ValuesOf(items, key)
  {
    ValuesOfEmpty(items, key);
  }
}
