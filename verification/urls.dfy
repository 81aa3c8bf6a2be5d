/**
 * The two lookups over the Project-URL entries of the record, each of the form
 * "<label>, <url>": the early-exit search for the homepage and the loop that
 * builds the label-to-URL dictionary of `__urls__`.
 */
module ProjectUrls {
  import opened Wrappers
  import opened Text

  /** The separator between an entry's label and its URL. */
  const Separator: string := ", "

  /** The prefix that marks the homepage entry. */
  const HomepagePrefix: string := "Homepage, "

  predicate IsHomepageEntry(e: string) {
    StartsWith(e, HomepagePrefix)
  }

  /** The label of `url_entry.split(", ", 1)`, when the separator occurs. */
  function LabelOf(e: string): Option<string> {
    match SplitOnce(e, Separator)
    case None => None
    case Some(parts) => Some(parts.0)
  }

  /** The URL of `url_entry.split(", ", 1)`: the text after the first separator. */
  function UrlOf(e: string): string
    requires Contains(e, Separator)
  {
    SplitOnce(e, Separator).value.1
  }

  /** The URL of a homepage entry is everything after its prefix. */
  lemma HomepageUrl(e: string)
    requires IsHomepageEntry(e)
    ensures Contains(e, Separator)
    ensures UrlOf(e) == e[|HomepagePrefix|..]
  {
    assert e[..10] == HomepagePrefix;
    assert OccursAt(e, Separator, 8) by {
      assert e[8..10] == HomepagePrefix[8..10];
    }
    var f := Find(e, Separator);
    assert f.Some?;
    if f.value < 8 {
      assert e[f.value] == HomepagePrefix[f.value];
      assert e[f.value..f.value + 2][0] == ',';
    }
  }

  /** The `__homepage__` value: the URL of the first homepage entry, or "" when there is none. */
  function Homepage(entries: seq<string>): string {
    if entries == [] then ""
    else if IsHomepageEntry(entries[0]) then (HomepageUrl(entries[0]); UrlOf(entries[0]))
    else Homepage(entries[1..])
  }

  /** The homepage is taken from the first homepage entry, and is "" exactly
      when no entry is one (or the first one has an empty URL). */
  lemma {:induction false} HomepageIsFirst(entries: seq<string>)
    ensures (forall i | 0 <= i < |entries| :: !IsHomepageEntry(entries[i])) ==> Homepage(entries) == ""
    ensures forall i | 0 <= i < |entries| && IsHomepageEntry(entries[i]) ::
      (forall j | 0 <= j < i :: !IsHomepageEntry(entries[j])) ==>
        Homepage(entries) == entries[i][|HomepagePrefix|..]
  {
    if entries != [] {
      HomepageIsFirst(entries[1..]);
      if IsHomepageEntry(entries[0]) {
        HomepageUrl(entries[0]);
      } else {
        forall i | 0 < i < |entries| && IsHomepageEntry(entries[i]) &&
            (forall j | 0 <= j < i :: !IsHomepageEntry(entries[j]))
          ensures Homepage(entries) == entries[i][|HomepagePrefix|..]
        {
          assert entries[1..][i - 1] == entries[i];
          assert forall j | 0 <= j < i - 1 :: entries[1..][j] == entries[j + 1];
        }
      }
    }
  }

  /** The homepage branch of `__getattr__`: scan the entries and return the URL
      of the first one that starts with "Homepage, ". */
  method FindHomepage(entries: seq<string>) returns (url: string)
    ensures url == Homepage(entries)
  {
    for i := 0 to |entries|
      invariant Homepage(entries[i..]) == Homepage(entries)
    {
      assert entries[i..][1..] == entries[i + 1..];
      if StartsWith(entries[i], HomepagePrefix) {
        HomepageUrl(entries[i]);
        var parts := SplitOnce(entries[i], Separator).value;
        return parts.1;
      }
    }
    return "";
  }

  /** `label.lower().replace(" ", "_")`. */
  function NormalizeLabel(raw: string): (key: string)
    ensures |key| == |raw|
    ensures ' ' !in key
    ensures forall c | c in key :: !IsUpper(c)
    ensures forall i | 0 <= i < |raw| :: key[i] == if raw[i] == ' ' then '_' else LowerChar(raw[i])
  {
    var lowered := Lower(raw);
    var key := ReplaceChar(lowered, ' ', '_');
    assert forall c | c in key :: !IsUpper(c) by {
      forall c | c in key ensures !IsUpper(c) {
        var i :| 0 <= i < |key| && key[i] == c;
        assert lowered[i] in lowered;
      }
    }
    key
  }

  /** Normalising twice changes nothing. */
  lemma NormalizeIdempotent(raw: string)
    ensures NormalizeLabel(NormalizeLabel(raw)) == NormalizeLabel(raw)
  {
    var k := NormalizeLabel(raw);
    var k2 := NormalizeLabel(k);
    forall i | 0 <= i < |k| ensures k2[i] == k[i] {
      assert k[i] in k;
      assert Lower(k)[i] == k[i];
    }
  }

  /** The entry is labelled `key`: it holds the separator and its label normalises to `key`. */
  predicate LabelledAs(e: string, key: string) {
    LabelOf(e).Some? && NormalizeLabel(LabelOf(e).value) == key
  }

  /** The `__urls__` dictionary after the given entries have been processed in order. */
  function UrlMap(entries: seq<string>): map<string, string> {
    if entries == [] then map[]
    else
      var m := UrlMap(entries[..|entries| - 1]);
      var e := entries[|entries| - 1];
      match SplitOnce(e, Separator)
      case None => m
      case Some(parts) => m[NormalizeLabel(parts.0) := parts.1]
  }

  /** The `__urls__` branch of `__getattr__`: every entry that holds the
      separator stores its URL under its normalised label. */
  method BuildUrls(entries: seq<string>) returns (urls: map<string, string>)
    ensures urls == UrlMap(entries)
  {
    urls := map[];
    for i := 0 to |entries|
      invariant urls == UrlMap(entries[..i])
    {
      assert entries[..i + 1][..i] == entries[..i];
      if Contains(entries[i], Separator) {
        var parts := SplitOnce(entries[i], Separator).value;
        urls := urls[NormalizeLabel(parts.0) := parts.1];
      }
    }
    assert entries[..|entries|] == entries;
  }

  /** No key of `__urls__` holds a space or an upper-case letter. */
  lemma {:induction false} UrlKeysNormalized(entries: seq<string>)
    ensures forall k | k in UrlMap(entries) :: ' ' !in k && forall c | c in k :: !IsUpper(c)
  {
    if entries != [] {
      UrlKeysNormalized(entries[..|entries| - 1]);
    }
  }

  lemma UrlMapSnoc(p: seq<string>, e: string)
    ensures UrlMap(p + [e]) ==
      if LabelOf(e).Some? then UrlMap(p)[NormalizeLabel(LabelOf(e).value) := UrlOf(e)] else UrlMap(p)
  {
    assert (p + [e])[..|p + [e]| - 1] == p;
  }

  /** A key is present exactly when some entry is labelled with it. */
  lemma {:induction false} UrlMapKeys(entries: seq<string>, key: string)
    ensures key in UrlMap(entries) <==> exists i | 0 <= i < |entries| :: LabelledAs(entries[i], key)
  {
    if entries != [] {
      var p := entries[..|entries| - 1];
      var e := entries[|entries| - 1];
      assert entries == p + [e];
      UrlMapKeys(p, key);
      UrlMapSnoc(p, e);
      if exists i | 0 <= i < |entries| :: LabelledAs(entries[i], key) {
        var i :| 0 <= i < |entries| && LabelledAs(entries[i], key);
        if i < |p| { assert p[i] == entries[i]; }
      }
      if exists i | 0 <= i < |p| :: LabelledAs(p[i], key) {
        var i :| 0 <= i < |p| && LabelledAs(p[i], key);
        assert entries[i] == p[i];
      }
    }
  }

  /** The URL stored under a key is that of the LAST entry labelled with it:
      later entries overwrite earlier ones. */
  lemma {:induction false} UrlMapLastWins(entries: seq<string>, key: string, i: nat)
    requires i < |entries| && LabelledAs(entries[i], key)
    requires forall j | i < j < |entries| :: !LabelledAs(entries[j], key)
    ensures key in UrlMap(entries) && UrlMap(entries)[key] == UrlOf(entries[i])
  {
    var p := entries[..|entries| - 1];
    var e := entries[|entries| - 1];
    assert entries == p + [e];
    UrlMapSnoc(p, e);
    if i < |p| {
      assert p[i] == entries[i];
      assert forall j | i < j < |p| :: p[j] == entries[j];
      UrlMapLastWins(p, key, i);
    }
  }

  /** A homepage entry is labelled "homepage". */
  lemma HomepageLabel(e: string)
    requires IsHomepageEntry(e)
    ensures LabelledAs(e, "homepage")
  {
    HomepageUrl(e);
    var f := Find(e, Separator).value;
    assert f == 8 by {
      assert OccursAt(e, Separator, 8) by { assert e[8..10] == HomepagePrefix[8..10]; }
    }
    assert e[..8] == "Homepage" by { assert e[..8] == HomepagePrefix[..8]; }
    assert LabelOf(e) == Some("Homepage");
    var n := NormalizeLabel("Homepage");
    assert n == ReplaceChar(Lower("Homepage"), ' ', '_');
    assert Lower("Homepage") == "homepage";
  }

  /** When the first homepage entry is also the last entry whose label
      normalises to "homepage", `__urls__["homepage"]` is the homepage. */
  lemma HomepageInUrls(entries: seq<string>, i: nat)
    requires i < |entries| && IsHomepageEntry(entries[i])
    requires forall j | 0 <= j < i :: !IsHomepageEntry(entries[j])
    requires forall j | i < j < |entries| :: !LabelledAs(entries[j], "homepage")
    ensures "homepage" in UrlMap(entries)
    ensures UrlMap(entries)["homepage"] == Homepage(entries)
  {
    HomepageUrl(entries[i]);
    HomepageIsFirst(entries);
    HomepageLabel(entries[i]);
    UrlMapLastWins(entries, "homepage", i);
  }
}
