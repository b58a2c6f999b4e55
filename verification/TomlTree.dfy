/** The two trees the configuration patcher works with. */
module TomlTree {
  // Plain TOML values are the typed `before` and `after`. The concrete document also records
  // spelling, comments, key order and table positions.
  //
  // The concrete tree is one datatype. `Leaf`, `Inline` and `List` are values (a scalar, an
  // inline table, an array); `Section` and `Sections` are a table with its own header and an
  // array of such tables. `WellFormed(n, inline)` says which may stand where: in an inline
  // position only values are legal.

  import opened Prelude

  datatype Scalar = Text(text: string) | Integer(int) | Boolean(bool) | Float(real) | Datetime(string)

  /** A plain TOML value. Tables compare as maps, whatever order their keys were written in. */
  datatype Toml = ScalarV(scalar: Scalar) | ArrayV(items: seq<Toml>) | TableV(fields: map<string, Toml>)

  /** The whitespace and comments around a key, a value or a table header. */
  datatype Decor = Decor(prefix: string, suffix: string)

  datatype Entry = Entry(key: string, keyDecor: Decor, node: Node)

  datatype Node =
    | Leaf(scalar: Scalar, spelling: string, decor: Decor)
    | Inline(entries: seq<Entry>, decor: Decor)
    | List(elems: seq<Node>, decor: Decor)
    | Section(entries: seq<Entry>, decor: Decor, position: Option<nat>)
    | Sections(tables: seq<Node>)

  predicate IsValue(n: Node) {
    n.Leaf? || n.Inline? || n.List?
  }

  function KeySet(es: seq<Entry>): set<string> {
    set i | 0 <= i < |es| :: es[i].key
  }

  ghost predicate Distinct(es: seq<Entry>) {
    forall i, j :: 0 <= i < j < |es| ==> es[i].key != es[j].key
  }

  /** Index of the first entry with key `k`, or the length when there is none. */
  function Find(es: seq<Entry>, k: string): (i: nat)
    ensures i <= |es|
    ensures i < |es| ==> es[i].key == k
    ensures i == |es| <==> k !in KeySet(es)
    ensures forall j :: 0 <= j < i ==> es[j].key != k
  {
    if |es| == 0 then 0
    else if es[0].key == k then
      assert es[0].key in KeySet(es);
      0
    else
      var r := Find(es[1..], k);
      assert KeySet(es) == {es[0].key} + KeySet(es[1..]) by { KeySetCons(es); }
      r + 1
  }

  lemma KeySetCons(es: seq<Entry>)
    requires |es| > 0
    ensures KeySet(es) == {es[0].key} + KeySet(es[1..])
  {
    forall i | 0 <= i < |es| ensures es[i].key in {es[0].key} + KeySet(es[1..]) {
      if i > 0 { assert es[1..][i - 1] == es[i]; }
    }
    forall i | 0 <= i < |es| - 1 ensures es[1..][i].key in KeySet(es) {
      assert es[1..][i] == es[i + 1];
    }
  }

  /** In a table without duplicate keys every entry is the one its key finds. */
  lemma FindOwnKey(es: seq<Entry>, i: nat)
    requires Distinct(es) && i < |es|
    ensures Find(es, es[i].key) == i
  {
    var j := Find(es, es[i].key);
    assert es[i].key in KeySet(es);
  }

  ghost predicate WellFormed(n: Node, inline: bool)
    decreases n, 0
  {
    match n
    case Leaf(_, _, _) => true
    case Inline(es, _) => WellFormedEntries(es, true)
    case List(xs, _) => forall i :: 0 <= i < |xs| ==> WellFormed(xs[i], true)
    case Section(es, _, _) => !inline && WellFormedEntries(es, false)
    case Sections(ts) => !inline && forall i :: 0 <= i < |ts| ==> ts[i].Section? && WellFormed(ts[i], false)
  }

  ghost predicate WellFormedEntries(es: seq<Entry>, inline: bool)
    decreases es, 1
  {
    Distinct(es) && forall i :: 0 <= i < |es| ==> WellFormed(es[i].node, inline)
  }

  /** The plain value a concrete node denotes. */
  function ValueOf(n: Node): Toml
    decreases n, 0
  {
    match n
    case Leaf(s, _, _) => ScalarV(s)
    case Inline(es, _) => TableV(FieldsOf(es))
    case List(xs, _) => ArrayV(seq(|xs|, i requires 0 <= i < |xs| => ValueOf(xs[i])))
    case Section(es, _, _) => TableV(FieldsOf(es))
    case Sections(ts) => ArrayV(seq(|ts|, i requires 0 <= i < |ts| => ValueOf(ts[i])))
  }

  function FieldsOf(es: seq<Entry>): map<string, Toml>
    decreases es, 1
  {
    map k | k in KeySet(es) :: ValueOf(es[Find(es, k)].node)
  }

  /** A table without duplicate keys denotes `fields` when its keys are those of `fields`
      and every entry denotes the field of its key. */
  lemma FieldsAre(es: seq<Entry>, fields: map<string, Toml>)
    requires Distinct(es)
    requires KeySet(es) == fields.Keys
    requires forall i :: 0 <= i < |es| ==> es[i].key in fields && ValueOf(es[i].node) == fields[es[i].key]
    ensures FieldsOf(es) == fields
  {
  }

  /** A node agrees with a value when they have the same shape, the same scalars, arrays of
      the same length, and every key they share agrees. Either side may have extra keys. */
  ghost predicate Agrees(n: Node, v: Toml)
    decreases n, 0
  {
    match n
    case Leaf(s, _, _) => v == ScalarV(s)
    case Inline(es, _) => v.TableV? && AgreesOn(es, v.fields)
    case List(xs, _) => v.ArrayV? && |xs| == |v.items| && forall i :: 0 <= i < |xs| ==> Agrees(xs[i], v.items[i])
    case Section(es, _, _) => v.TableV? && AgreesOn(es, v.fields)
    case Sections(ts) => v.ArrayV? && |ts| == |v.items| && forall i :: 0 <= i < |ts| ==> Agrees(ts[i], v.items[i])
  }

  ghost predicate AgreesOn(es: seq<Entry>, fields: map<string, Toml>)
    decreases es, 1
  {
    forall i :: 0 <= i < |es| && es[i].key in fields ==> Agrees(es[i].node, fields[es[i].key])
  }

  /** Every well-formed node agrees with its own value. */
  lemma {:induction false} AgreesWithOwnValue(n: Node, inline: bool)
    requires WellFormed(n, inline)
    ensures Agrees(n, ValueOf(n))
    decreases n
  {
    match n
    case Leaf(_, _, _) =>
    case Inline(es, _) =>
      forall i | 0 <= i < |es| ensures Agrees(es[i].node, FieldsOf(es)[es[i].key]) {
        FindOwnKey(es, i);
        AgreesWithOwnValue(es[i].node, true);
      }
    case List(xs, _) =>
      forall i | 0 <= i < |xs| ensures Agrees(xs[i], ValueOf(xs[i])) { AgreesWithOwnValue(xs[i], true); }
    case Section(es, _, _) =>
      forall i | 0 <= i < |es| ensures Agrees(es[i].node, FieldsOf(es)[es[i].key]) {
        FindOwnKey(es, i);
        AgreesWithOwnValue(es[i].node, false);
      }
    case Sections(ts) =>
      forall i | 0 <= i < |ts| ensures Agrees(ts[i], ValueOf(ts[i])) { AgreesWithOwnValue(ts[i], false); }
  }
}
