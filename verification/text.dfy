/**
 * The few Python `str` operations the metadata resolver relies on, restricted
 * to ASCII: `isspace`, `strip`, `split` on one character and its inverse
 * `join`, `split(sep, 1)` on a separator string, `in` for substrings,
 * `startswith`, `lower` and `replace` of one character.
 */
module Text {
  import opened Wrappers

  /** `str.isspace` on one ASCII character: tab, line feed, vertical tab, form
      feed, carriage return, the four information separators and space. */
  predicate IsSpace(c: char) {
    c == ' ' || ('\t' <= c <= '\r') || ('\U{1C}' <= c <= '\U{1F}')
  }

  predicate AllSpace(s: string) {
    forall i | 0 <= i < |s| :: IsSpace(s[i])
  }

  /** Neither end of `s` is whitespace: what `strip` leaves behind. */
  predicate Trimmed(s: string) {
    s == [] || (!IsSpace(s[0]) && !IsSpace(s[|s| - 1]))
  }

  /** `s.lstrip()`: what is left after dropping leading whitespace. */
  function LStrip(s: string): (r: string)
    ensures |r| <= |s|
    ensures r == [] || !IsSpace(r[0])
  {
    if s != [] && IsSpace(s[0]) then LStrip(s[1..]) else s
  }

  /** `s.rstrip()`: what is left after dropping trailing whitespace. */
  function RStrip(s: string): (r: string)
    ensures |r| <= |s|
    ensures r == [] || (!IsSpace(r[|r| - 1]) && r[0] == s[0])
  {
    if s != [] && IsSpace(s[|s| - 1]) then RStrip(s[..|s| - 1]) else s
  }

  /** `s.strip()`. */
  function Strip(s: string): (r: string)
    ensures Trimmed(r)
    ensures |r| <= |s|
  {
    RStrip(LStrip(s))
  }

  lemma {:induction false} LStripAvoids(s: string, c: char)
    requires c !in s
    ensures c !in LStrip(s)
  {
    if s != [] && IsSpace(s[0]) {
      assert forall i | 0 <= i < |s[1..]| :: s[1..][i] == s[i + 1];
      LStripAvoids(s[1..], c);
    }
  }

  lemma {:induction false} RStripAvoids(s: string, c: char)
    requires c !in s
    ensures c !in RStrip(s)
  {
    if s != [] && IsSpace(s[|s| - 1]) {
      assert forall i | 0 <= i < |s| - 1 :: s[..|s| - 1][i] == s[i];
      RStripAvoids(s[..|s| - 1], c);
    }
  }

  /** `strip` introduces no character. */
  lemma StripAvoids(s: string, c: char)
    requires c !in s
    ensures c !in Strip(s)
  {
    LStripAvoids(s, c);
    RStripAvoids(LStrip(s), c);
  }

  lemma {:induction false} LStripSkipsSpace(a: string, t: string)
    requires AllSpace(a)
    ensures LStrip(a + t) == LStrip(t)
  {
    if a != [] {
      assert IsSpace((a + t)[0]) by { assert (a + t)[0] == a[0]; }
      assert (a + t)[1..] == a[1..] + t;
      assert AllSpace(a[1..]) by {
        forall i | 0 <= i < |a[1..]| ensures IsSpace(a[1..][i]) { assert a[1..][i] == a[i + 1]; }
      }
      LStripSkipsSpace(a[1..], t);
    } else {
      assert a + t == t;
    }
  }

  lemma {:induction false} RStripSkipsSpace(t: string, b: string)
    requires AllSpace(b)
    ensures RStrip(t + b) == RStrip(t)
  {
    if b != [] {
      assert IsSpace((t + b)[|t + b| - 1]) by { assert (t + b)[|t + b| - 1] == b[|b| - 1]; }
      assert (t + b)[..|t + b| - 1] == t + b[..|b| - 1];
      assert AllSpace(b[..|b| - 1]) by {
        forall i | 0 <= i < |b| - 1 ensures IsSpace(b[i]) { }
      }
      RStripSkipsSpace(t, b[..|b| - 1]);
    } else {
      assert t + b == t;
    }
  }

  /** `strip` removes exactly the whitespace around a trimmed core: the
      characterisation that makes `Strip` unique. */
  lemma StripAround(a: string, m: string, b: string)
    requires AllSpace(a) && AllSpace(b) && Trimmed(m)
    ensures Strip(a + m + b) == m
  {
    assert a + m + b == a + (m + b);
    LStripSkipsSpace(a, m + b);
    if m == [] {
      assert m + b == b + [];
      LStripSkipsSpace(b, []);
    } else {
      assert LStrip(m + b) == m + b;
      RStripSkipsSpace(m, b);
    }
  }

  /** `pat` occurs in `s` starting at index `i`. */
  predicate OccursAt(s: string, pat: string, i: nat) {
    i + |pat| <= |s| && s[i..i + |pat|] == pat
  }

  /** Index of the first occurrence of `pat` in `s` at or after `from`. */
  function FindFrom(s: string, pat: string, from: nat): (r: Option<nat>)
    requires from <= |s|
    ensures r.Some? ==> from <= r.value && OccursAt(s, pat, r.value)
    ensures forall j: nat | from <= j && (r.None? || j < r.value) :: !OccursAt(s, pat, j)
    decreases |s| - from
  {
    if from + |pat| > |s| then None
    else if s[from..from + |pat|] == pat then Some(from)
    else FindFrom(s, pat, from + 1)
  }

  /** `s.find(pat)`, as an option. */
  function Find(s: string, pat: string): (r: Option<nat>)
    ensures r.Some? ==> OccursAt(s, pat, r.value)
    ensures forall j: nat | r.None? || j < r.value :: !OccursAt(s, pat, j)
  {
    FindFrom(s, pat, 0)
  }

  /** `pat in s`. */
  predicate Contains(s: string, pat: string) {
    Find(s, pat).Some?
  }

  /** `s.split(pat, 1)` when it yields two parts; `None` when `pat` does not occur. */
  function SplitOnce(s: string, pat: string): (r: Option<(string, string)>)
    ensures r.Some? <==> Contains(s, pat)
    ensures r.Some? ==> s == r.value.0 + pat + r.value.1 && Find(s, pat) == Some(|r.value.0|)
  {
    match Find(s, pat)
    case None => None
    case Some(i) =>
      assert s == s[..i] + pat + s[i + |pat|..] by {
        assert s[i..i + |pat|] == pat;
        assert s == s[..i] + s[i..i + |pat|] + s[i + |pat|..];
      }
      Some((s[..i], s[i + |pat|..]))
  }

  /** `s.startswith(p)`. */
  predicate StartsWith(s: string, p: string) {
    |p| <= |s| && s[..|p|] == p
  }

  /** `s.split(c)[0]`: the text before the first `c`, or all of `s`. */
  function BeforeChar(s: string, c: char): (r: string)
    ensures |r| <= |s| && r == s[..|r|]
    ensures c !in r
    ensures |r| < |s| ==> s[|r|] == c
  {
    if s == [] || s[0] == c then [] else [s[0]] + BeforeChar(s[1..], c)
  }

  /** `s.split(c, 1)[1]`: the text after the first `c`. */
  function AfterChar(s: string, c: char): (r: string)
    requires c in s
    ensures s == BeforeChar(s, c) + [c] + r
  {
    var h := BeforeChar(s, c);
    assert |h| < |s|;
    assert s == h + [s[|h|]] + s[|h| + 1..];
    s[|h| + 1..]
  }

  lemma {:induction false} BeforeCharOfJoin(p: string, c: char, t: string)
    requires c !in p
    ensures BeforeChar(p + [c] + t, c) == p
  {
    if p != [] {
      assert (p + [c] + t)[1..] == p[1..] + [c] + t;
      BeforeCharOfJoin(p[1..], c, t);
      assert p == [p[0]] + p[1..];
    }
  }

  /** Text free of `c` passes through `split(c)[0]` unchanged in front of whatever follows. */
  lemma {:induction false} BeforeCharConcat(x: string, y: string, c: char)
    requires c !in x
    ensures BeforeChar(x + y, c) == x + BeforeChar(y, c)
  {
    if x == [] {
      assert x + y == y;
    } else {
      assert (x + y)[1..] == x[1..] + y;
      BeforeCharConcat(x[1..], y, c);
      assert x == [x[0]] + x[1..];
    }
  }

  lemma BeforeCharAbsent(s: string, c: char)
    requires c !in s
    ensures BeforeChar(s, c) == s
  {
  }

  /** `sep.join(parts)`. */
  function Join(parts: seq<string>, sep: string): string {
    if parts == [] then []
    else if |parts| == 1 then parts[0]
    else parts[0] + sep + Join(parts[1..], sep)
  }

  /** Prepending to the first part prepends to the join. */
  lemma JoinPrefix(w: string, parts: seq<string>, sep: string)
    requires |parts| >= 1
    ensures Join([w + parts[0]] + parts[1..], sep) == w + Join(parts, sep)
  {
    var q := [w + parts[0]] + parts[1..];
    if |parts| > 1 {
      assert q[1..] == parts[1..];
      var j := Join(parts[1..], sep);
      assert Join(q, sep) == (w + parts[0]) + sep + j;
      assert Join(parts, sep) == parts[0] + sep + j;
      assert (w + parts[0]) + sep + j == w + (parts[0] + sep + j);
    } else {
      assert q == [w + parts[0]];
    }
  }

  /** `s.split(c)`: the pieces between occurrences of `c`, at least one. */
  function Split(s: string, c: char): (parts: seq<string>)
    ensures |parts| >= 1
    ensures forall p | p in parts :: c !in p
    ensures Join(parts, [c]) == s
    decreases |s|
  {
    var head := BeforeChar(s, c);
    if |head| == |s| then [s]
    else
      var rest := Split(s[|head| + 1..], c);
      assert s == head + [c] + s[|head| + 1..];
      [head] + rest
  }

  /** Splitting a join of `c`-free pieces gives the pieces back. */
  lemma {:induction false} SplitJoin(parts: seq<string>, c: char)
    requires |parts| >= 1
    requires forall p | p in parts :: c !in p
    ensures Split(Join(parts, [c]), c) == parts
  {
    if |parts| == 1 {
      BeforeCharAbsent(parts[0], c);
    } else {
      var j := Join(parts[1..], [c]);
      assert Join(parts, [c]) == parts[0] + [c] + j;
      BeforeCharOfJoin(parts[0], c, j);
      assert (parts[0] + [c] + j)[|parts[0]| + 1..] == j;
      SplitJoin(parts[1..], c);
      assert parts == [parts[0]] + parts[1..];
    }
  }

  /** Joining two non-empty runs of pieces puts one separator between their joins. */
  lemma {:induction false} JoinAppend(p: seq<string>, q: seq<string>, c: char)
    requires |p| >= 1 && |q| >= 1
    ensures Join(p + q, [c]) == Join(p, [c]) + [c] + Join(q, [c])
  {
    if |p| == 1 {
      assert (p + q)[1..] == q;
    } else {
      JoinAppend(p[1..], q, c);
      assert (p + q)[1..] == p[1..] + q;
    }
  }

  /** `(a + c + b).split(c)` is `a.split(c) + b.split(c)`. */
  lemma SplitAppend(a: string, b: string, c: char)
    ensures Split(a + [c] + b, c) == Split(a, c) + Split(b, c)
  {
    var p, q := Split(a, c), Split(b, c);
    JoinAppend(p, q, c);
    SplitJoin(p + q, c);
  }

  /** `c.lower()` for one character, ASCII only. */
  function LowerChar(c: char): char {
    if 'A' <= c <= 'Z' then (c as int + 32) as char else c
  }

  predicate IsUpper(c: char) {
    'A' <= c <= 'Z'
  }

  /** `s.lower()`, ASCII only. */
  function Lower(s: string): (r: string)
    ensures |r| == |s|
    ensures forall i | 0 <= i < |s| :: r[i] == LowerChar(s[i])
    ensures forall c | c in r :: !IsUpper(c)
  {
    seq(|s|, i requires 0 <= i < |s| => LowerChar(s[i]))
  }

  /** `s.replace(a, b)` for single characters. */
  function ReplaceChar(s: string, a: char, b: char): (r: string)
    ensures |r| == |s|
    ensures forall i | 0 <= i < |s| :: r[i] == (if s[i] == a then b else s[i])
    ensures a != b ==> a !in r
  {
    seq(|s|, i requires 0 <= i < |s| => if s[i] == a then b else s[i])
  }
}
