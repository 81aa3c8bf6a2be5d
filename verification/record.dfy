/**
 * The metadata record built by `_get_metadata`: the installed package's
 * `(key, value)` header items folded into an insertion-ordered dictionary in
 * which a key seen once keeps its string and a repeated key collects all of
 * its strings into a list.
 */
module MetadataRecord {
  import opened Wrappers

  /** One header line of the package metadata, as `meta.items()` yields it. */
  type Item = (string, string)

  /** A dictionary value: a plain string, or the list a repeated key becomes. */
  datatype Value = Scalar(text: string) | Multi(texts: seq<string>)

  /** The dictionary: its keys in insertion order and its key-to-value map. */
  datatype Record = Record(order: seq<string>, fields: map<string, Value>)

  /** `record.get(key)`. */
  function Lookup(rec: Record, key: string): Option<Value> {
    if key in rec.fields then Some(rec.fields[key]) else None
  }

  /** The values given for `key`, in input order. */
  function ValuesOf(items: seq<Item>, key: string): seq<string> {
    if items == [] then []
    else
      var last := items[|items| - 1];
      ValuesOf(items[..|items| - 1], key) + (if last.0 == key then [last.1] else [])
  }

  /** The keys that occur in the input. */
  function KeysOf(items: seq<Item>): set<string> {
    set i | 0 <= i < |items| :: items[i].0
  }

  /** The keys in order of first occurrence. */
  function FirstSeen(items: seq<Item>): seq<string> {
    if items == [] then []
    else
      var prefix := FirstSeen(items[..|items| - 1]);
      var key := items[|items| - 1].0;
      if key in prefix then prefix else prefix + [key]
  }

  /** How the values of one key are stored: one value as itself, several as a list. */
  function Grouped(vs: seq<string>): Value {
    if |vs| == 1 then Scalar(vs[0]) else Multi(vs)
  }

  /** The record the builder must produce, defined key by key. */
  function RecordOf(items: seq<Item>): Record {
    Record(FirstSeen(items), map k | k in KeysOf(items) :: Grouped(ValuesOf(items, k)))
  }

  /** A stored value as the list it is or becomes once the key repeats. */
  function AsValues(v: Value): seq<string> {
    match v
    case Scalar(s) => [s]
    case Multi(xs) => xs
  }

  lemma KeysOfSnoc(p: seq<Item>, x: Item)
    ensures KeysOf(p + [x]) == KeysOf(p) + {x.0}
  {
    var items := p + [x];
    forall k | k in KeysOf(items) ensures k in KeysOf(p) + {x.0} {
      var i :| 0 <= i < |items| && items[i].0 == k;
      if i < |p| { assert p[i] == items[i]; }
    }
    forall k | k in KeysOf(p) ensures k in KeysOf(items) {
      var i :| 0 <= i < |p| && p[i].0 == k;
      assert items[i] == p[i];
    }
    assert items[|p|] == x;
  }

  lemma {:induction false} ValuesOfEmpty(items: seq<Item>, key: string)
    ensures ValuesOf(items, key) == [] <==> key !in KeysOf(items)
  {
    if items != [] {
      var p := items[..|items| - 1];
      assert items == p + [items[|items| - 1]];
      ValuesOfEmpty(p, key);
      KeysOfSnoc(p, items[|items| - 1]);
    }
  }

  lemma {:induction false} FirstSeenKeys(items: seq<Item>)
    ensures forall k :: k in FirstSeen(items) <==> k in KeysOf(items)
  {
    if items != [] {
      var p := items[..|items| - 1];
      assert items == p + [items[|items| - 1]];
      FirstSeenKeys(p);
      KeysOfSnoc(p, items[|items| - 1]);
    }
  }

  lemma ValuesOfSnoc(p: seq<Item>, x: Item, key: string)
    ensures ValuesOf(p + [x], key) == ValuesOf(p, key) + (if x.0 == key then [x.1] else [])
  {
    assert (p + [x])[..|p + [x]| - 1] == p;
  }

  lemma FirstSeenSnoc(p: seq<Item>, x: Item)
    ensures FirstSeen(p + [x]) == if x.0 in FirstSeen(p) then FirstSeen(p) else FirstSeen(p) + [x.0]
  {
    assert (p + [x])[..|p + [x]| - 1] == p;
  }

  lemma SnocOtherKeys(p: seq<Item>, x: Item)
    ensures forall k | k in RecordOf(p).fields && k != x.0 ::
      k in RecordOf(p + [x]).fields && RecordOf(p + [x]).fields[k] == RecordOf(p).fields[k]
    ensures forall k | k in RecordOf(p + [x]).fields && k != x.0 :: k in RecordOf(p).fields
    ensures x.0 in RecordOf(p + [x]).fields
  {
    KeysOfSnoc(p, x);
    forall k | k in KeysOf(p + [x]) && k != x.0
      ensures ValuesOf(p + [x], k) == ValuesOf(p, k)
    {
      ValuesOfSnoc(p, x, k);
    }
  }

  lemma SnocOwnKey(p: seq<Item>, x: Item)
    ensures x.0 in RecordOf(p).fields ==>
      RecordOf(p + [x]).fields[x.0] == Multi(AsValues(RecordOf(p).fields[x.0]) + [x.1])
    ensures x.0 !in RecordOf(p).fields ==> RecordOf(p + [x]).fields[x.0] == Scalar(x.1)
  {
    KeysOfSnoc(p, x);
    ValuesOfEmpty(p, x.0);
    ValuesOfSnoc(p, x, x.0);
    var vs := ValuesOf(p, x.0);
    if x.0 in KeysOf(p) {
      assert AsValues(Grouped(vs)) == vs;
    }
  }

  /** Appending one item changes the record exactly as one step of the loop does. */
  lemma RecordOfSnoc(p: seq<Item>, x: Item)
    ensures x.0 in RecordOf(p).fields ==>
      RecordOf(p + [x]) == Record(RecordOf(p).order,
        RecordOf(p).fields[x.0 := Multi(AsValues(RecordOf(p).fields[x.0]) + [x.1])])
    ensures x.0 !in RecordOf(p).fields ==>
      RecordOf(p + [x]) == Record(RecordOf(p).order + [x.0], RecordOf(p).fields[x.0 := Scalar(x.1)])
  {
    var r, r' := RecordOf(p), RecordOf(p + [x]);
    var key := x.0;
    var updated := if key in r.fields then Multi(AsValues(r.fields[key]) + [x.1]) else Scalar(x.1);
    FirstSeenKeys(p);
    FirstSeenSnoc(p, x);
    SnocOtherKeys(p, x);
    SnocOwnKey(p, x);
    var m := r.fields[key := updated];
    assert r'.fields.Keys == m.Keys;
    forall k | k in m ensures r'.fields[k] == m[k] {
      if k != key {
        assert m[k] == r.fields[k];
      }
    }
    assert r'.fields == m;
  }

  /** The loop of `_get_metadata`: an unseen key stores its value; a seen key
      turns a stored string into a one-element list and appends. */
  method BuildRecord(items: seq<Item>) returns (rec: Record)
    ensures rec == RecordOf(items)
  {
    var order: seq<string> := [];
    var fields: map<string, Value> := map[];
    var i := 0;
    while i < |items|
      invariant 0 <= i <= |items|
      invariant Record(order, fields) == RecordOf(items[..i])
    {
      var (key, value) := items[i];
      RecordOfSnoc(items[..i], items[i]);
      if key in fields {
        var current := fields[key];
        var list := if current.Multi? then current.texts else [current.text];
        fields := fields[key := Multi(list + [value])];
      } else {
        fields := fields[key := Scalar(value)];
        order := order + [key];
      }
      assert items[..i + 1] == items[..i] + [items[i]];
      i := i + 1;
    }
    assert items[..i] == items;
    rec := Record(order, fields);
  }

  /** The dictionary's keys are exactly the input keys, each listed once, in
      order of first occurrence. */
  lemma {:induction false} RecordKeys(items: seq<Item>)
    ensures forall k :: k in RecordOf(items).fields <==> exists i | 0 <= i < |items| :: items[i].0 == k
    ensures forall k :: k in RecordOf(items).order <==> k in RecordOf(items).fields
    ensures forall i, j | 0 <= i < j < |RecordOf(items).order| ::
      RecordOf(items).order[i] != RecordOf(items).order[j]
  {
    FirstSeenKeys(items);
    if items != [] {
      var p := items[..|items| - 1];
      var x := items[|items| - 1];
      assert items == p + [x];
      RecordKeys(p);
      FirstSeenSnoc(p, x);
    }
  }

  /** The values of a key are collected in input order. */
  lemma {:induction false} ValuesOfAppend(a: seq<Item>, b: seq<Item>, key: string)
    ensures ValuesOf(a + b, key) == ValuesOf(a, key) + ValuesOf(b, key)
  {
    if b != [] {
      var b' := b[..|b| - 1];
      var x := b[|b| - 1];
      assert b == b' + [x];
      assert a + b == (a + b') + [x];
      ValuesOfAppend(a, b', key);
      ValuesOfSnoc(a + b', x, key);
      ValuesOfSnoc(b', x, key);
    } else {
      assert a + b == a;
    }
  }

  lemma ValuesOfOne(x: Item, key: string)
    ensures ValuesOf([x], key) == if x.0 == key then [x.1] else []
  {
    assert [x][..0] == [];
  }

  /** A key that occurs once keeps its single value. */
  lemma SingleValue(a: seq<Item>, key: string, v: string, b: seq<Item>)
    requires key !in KeysOf(a) && key !in KeysOf(b)
    ensures key in RecordOf(a + [(key, v)] + b).fields
    ensures RecordOf(a + [(key, v)] + b).fields[key] == Scalar(v)
  {
    var items := a + [(key, v)] + b;
    ValuesOfEmpty(a, key);
    ValuesOfEmpty(b, key);
    ValuesOfOne((key, v), key);
    ValuesOfAppend(a, [(key, v)], key);
    ValuesOfAppend(a + [(key, v)], b, key);
    assert items[|a|].0 == key;
  }

  /** A key that occurs twice becomes the list of both values, in input order. */
  lemma TwoValues(a: seq<Item>, key: string, v1: string, b: seq<Item>, v2: string, c: seq<Item>)
    requires key !in KeysOf(a) && key !in KeysOf(b) && key !in KeysOf(c)
    ensures key in RecordOf(a + [(key, v1)] + b + [(key, v2)] + c).fields
    ensures RecordOf(a + [(key, v1)] + b + [(key, v2)] + c).fields[key] == Multi([v1, v2])
  {
    var items := a + [(key, v1)] + b + [(key, v2)] + c;
    ValuesOfEmpty(a, key);
    ValuesOfEmpty(b, key);
    ValuesOfEmpty(c, key);
    ValuesOfOne((key, v1), key);
    ValuesOfOne((key, v2), key);
    ValuesOfAppend(a, [(key, v1)], key);
    ValuesOfAppend(a + [(key, v1)], b, key);
    ValuesOfAppend(a + [(key, v1)] + b, [(key, v2)], key);
    ValuesOfAppend(a + [(key, v1)] + b + [(key, v2)], c, key);
    assert items[|a|].0 == key;
  }

  /** A key that occurs two or more times maps to all of its values. */
  lemma RepeatedKey(items: seq<Item>, key: string)
    requires |ValuesOf(items, key)| >= 2
    ensures key in RecordOf(items).fields
    ensures RecordOf(items).fields[key] == Multi(ValuesOf(items, key))
  {
    ValuesOfEmpty(items, key);
  }
}
