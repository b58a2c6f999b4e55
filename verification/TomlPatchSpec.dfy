/** What patching a concrete document from `before` to `after` means. */
module TomlPatchSpec {
  // A relation between the document before and after the patch, and the guarantees that follow
  // from it. The relation leaves open the order in which the keys of `after` are visited.

  import opened Prelude
  import opened TomlTree

  type Fields = map<string, Toml>

  ghost predicate Changed(k: string, before: Fields, after: Fields) {
    k in after && !(k in before && before[k] == after[k])
  }

  predicate AllTables(vs: seq<Toml>) {
    forall i :: 0 <= i < |vs| ==> vs[i].TableV?
  }

  /** The entries whose keys are not in `gone`, in order. */
  function Without(es: seq<Entry>, gone: set<string>): (r: seq<Entry>)
    ensures forall e :: e in r <==> e in es && e.key !in gone
  {
    if es == [] then []
    else if es[0].key in gone then Without(es[1..], gone)
    else [es[0]] + Without(es[1..], gone)
  }

  /** Written the way a file is written outside inline values: a table as a section, and an
      array of tables, unless it is empty, as an array of sections. */
  ghost predicate Sectioned(n: Node)
    decreases n
  {
    match n
    case Leaf(_, _, _) => true
    case Inline(_, _) => false
    case List(xs, _) => xs == [] || exists i :: 0 <= i < |xs| && !xs[i].Inline?
    case Section(es, _, _) => forall i :: 0 <= i < |es| ==> Sectioned(es[i].node)
    case Sections(ts) => ts != [] && forall i :: 0 <= i < |ts| ==> Sectioned(ts[i])
  }

  /** A fresh node for `v`, fit for its place. */
  ghost predicate Denotes(n: Node, v: Toml, inline: bool) {
    WellFormed(n, inline) && ValueOf(n) == v && (!inline ==> Sectioned(n))
  }

  /** A replacement keeps the old decoration when old and new are both values, or both tables. */
  ghost predicate DecorKept(n: Node, r: Node) {
    && (IsValue(n) && IsValue(r) ==> r.decor == n.decor)
    && (n.Section? && r.Section? ==> r.decor == n.decor)
  }

  ghost predicate PatchedNode(n: Node, before: Toml, after: Toml, r: Node, inline: bool)
    decreases after, 2
  {
    if n.Section? && before.TableV? && after.TableV? then
      && r.Section? && r.decor == n.decor && r.position == n.position
      && PatchedEntries(n.entries, before.fields, after.fields, r.entries, false)
    else if n.Inline? && before.TableV? && after.TableV? then
      && r.Inline? && r.decor == n.decor
      && PatchedEntries(n.entries, before.fields, after.fields, r.entries, true)
    else if n.List? && before.ArrayV? && after.ArrayV? then
      && r.List? && r.decor == n.decor
      && PatchedElements(n.elems, before.items, after.items, r.elems, true)
    else if n.Sections? && before.ArrayV? && after.ArrayV? && AllTables(before.items) && AllTables(after.items) then
      && r.Sections?
      && PatchedElements(n.tables, before.items, after.items, r.tables, false)
      && NewTablesFollow(n.tables, r.tables)
    else
      Denotes(r, after, inline) && DecorKept(n, r)
  }

  ghost predicate PatchedEntries(es: seq<Entry>, before: Fields, after: Fields, rs: seq<Entry>, inline: bool)
    decreases TableV(after), 1
  {
    PatchedSoFar(Without(es, before.Keys - after.Keys), before, after, after.Keys, rs, inline)
  }

  /** The surviving entries `ws` stand first and in order; then come new keys. Only the keys in
      `done` have been dealt with yet. */
  ghost predicate PatchedSoFar(ws: seq<Entry>, before: Fields, after: Fields, done: set<string>,
                               rs: seq<Entry>, inline: bool)
    decreases TableV(after), 0
  {
    && |ws| <= |rs| && Distinct(rs)
    && (forall i :: 0 <= i < |ws| ==> rs[i].key == ws[i].key)
    && (forall i :: 0 <= i < |ws| && !(ws[i].key in done && Changed(ws[i].key, before, after)) ==> rs[i] == ws[i])
    && (forall i :: 0 <= i < |ws| && ws[i].key in done && Changed(ws[i].key, before, after) ==>
          if ws[i].key in before
          then rs[i].keyDecor == ws[i].keyDecor
            && PatchedNode(ws[i].node, before[ws[i].key], after[ws[i].key], rs[i].node, inline)
          else Denotes(rs[i].node, after[ws[i].key], inline))
    && (forall i :: |ws| <= i < |rs| ==>
          rs[i].key in done && Changed(rs[i].key, before, after) && Denotes(rs[i].node, after[rs[i].key], inline))
    && (forall k :: k in done && Changed(k, before, after) ==> k in KeySet(rs))
  }

  ghost predicate PatchedElements(ns: seq<Node>, before: seq<Toml>, after: seq<Toml>, rs: seq<Node>, inline: bool)
    decreases ArrayV(after), 1
  {
    && |rs| == |after|
    && (forall i :: 0 <= i < |ns| && i < |after| ==>
          if i < |before| && before[i] != after[i]
          then PatchedNode(ns[i], before[i], after[i], rs[i], inline)
          else rs[i] == ns[i])
    && (forall i :: |ns| <= i < |after| ==> Denotes(rs[i], after[i], inline) && (!inline ==> rs[i].Section?))
  }

  // --- table positions ---

  const USIZE_MAX: nat := 0xffff_ffff_ffff_ffff

  function SaturatingInc(n: nat): (r: nat) {
    if n + 1 <= USIZE_MAX then n + 1 else USIZE_MAX
  }

  /** The positions of a table and of every table below it, in document order. */
  function Positions(n: Node): seq<nat>
    decreases n, 0
  {
    match n
    case Section(es, _, p) => (if p.Some? then [p.value] else []) + EntryPositions(es)
    case Sections(ts) => TablePositions(ts)
    case _ => []
  }

  function EntryPositions(es: seq<Entry>): seq<nat>
    decreases es, 1
  {
    if es == [] then [] else EntryPositions(es[..|es| - 1]) + Positions(es[|es| - 1].node)
  }

  function TablePositions(ts: seq<Node>): seq<nat>
    decreases ts, 1
  {
    if ts == [] then [] else TablePositions(ts[..|ts| - 1]) + Positions(ts[|ts| - 1])
  }

  /** `start`, `start + 1`, and so on, `count` numbers, held at the largest `usize`. */
  function Run(start: nat, count: nat): (r: seq<nat>)
    ensures |r| == count
    decreases count
  {
    if count == 0 then [] else [start] + Run(SaturatingInc(start), count - 1)
  }

  function MaxOr(ps: seq<nat>, floor: nat): (m: nat)
    ensures floor <= m && (m == floor || m in ps)
    ensures forall p :: p in ps ==> p <= m
  {
    if ps == [] then floor
    else var m := MaxOr(ps[..|ps| - 1], floor);
         assert ps == ps[..|ps| - 1] + [ps[|ps| - 1]];
         if ps[|ps| - 1] > m then ps[|ps| - 1] else m
  }

  /** Appended tables are numbered consecutively, after every table that stayed. */
  ghost predicate NewTablesFollow(ns: seq<Node>, rs: seq<Node>) {
    |ns| < |rs| ==>
      var added := TablePositions(rs[|ns|..]);
      added == Run(SaturatingInc(MaxOr(TablePositions(rs[..|ns|]), 0)), |added|)
  }

  lemma {:induction false} RunIncreases(start: nat, count: nat, i: nat)
    requires i < count
    requires start + count <= USIZE_MAX + 1
    ensures Run(start, count)[i] == start + i
    decreases count
  {
    if i > 0 {
      RunIncreases(start + 1, count - 1, i - 1);
    }
  }

  /** As long as the numbers do not run out, appended tables render after all the tables that
      were there, and in the order of `after`: their positions are larger and increasing. */
  lemma AppendedTablesComeLast(ns: seq<Node>, rs: seq<Node>, i: nat, j: nat)
    requires NewTablesFollow(ns, rs) && |ns| < |rs|
    requires i < j < |TablePositions(rs[|ns|..])|
    requires MaxOr(TablePositions(rs[..|ns|]), 0) + |TablePositions(rs[|ns|..])| <= USIZE_MAX
    ensures TablePositions(rs[|ns|..])[i] < TablePositions(rs[|ns|..])[j]
    ensures forall p :: p in TablePositions(rs[..|ns|]) ==> p < TablePositions(rs[|ns|..])[i]
  {
    var added := TablePositions(rs[|ns|..]);
    var start := MaxOr(TablePositions(rs[..|ns|]), 0) + 1;
    assert added == Run(start, |added|);
    RunIncreases(start, |added|, i);
    RunIncreases(start, |added|, j);
  }

  // --- guarantee 1: the result agrees with `after` ---

  lemma {:induction false} WithoutKeys(es: seq<Entry>, gone: set<string>)
    requires Distinct(es)
    ensures Distinct(Without(es, gone)) && KeySet(Without(es, gone)) == KeySet(es) - gone
  {
    if es != [] {
      WithoutKeys(es[1..], gone);
      KeySetCons(es);
      if es[0].key !in gone { SubsetCons(es[0], Without(es[1..], gone)); }
    }
  }

  lemma WithoutSubset(es: seq<Entry>, gone: set<string>, inline: bool)
    requires Distinct(es)
    ensures Distinct(Without(es, gone))
    ensures KeySet(Without(es, gone)) == KeySet(es) - gone
    ensures WellFormedEntries(es, inline) ==> WellFormedEntries(Without(es, gone), inline)
  {
    WithoutKeys(es, gone);
    var ws := Without(es, gone);
    if WellFormedEntries(es, inline) {
      forall i | 0 <= i < |ws| ensures WellFormed(ws[i].node, inline) {
        assert ws[i] in ws;
      }
    }
  }

  lemma SubsetCons(e: Entry, ws: seq<Entry>)
    ensures KeySet([e] + ws) == {e.key} + KeySet(ws)
    ensures Distinct(ws) && e.key !in KeySet(ws) ==> Distinct([e] + ws)
  {
    assert ([e] + ws)[1..] == ws;
    KeySetCons([e] + ws);
  }

  lemma KeyAt(es: seq<Entry>, k: string) returns (i: nat)
    requires k in KeySet(es)
    ensures i < |es| && es[i].key == k
  {
    i := Find(es, k);
  }

  /** Patching keeps the document well formed. */
  lemma {:induction false} PatchKeepsWellFormed(n: Node, before: Toml, after: Toml, r: Node, inline: bool)
    requires WellFormed(n, inline) && PatchedNode(n, before, after, r, inline)
    ensures WellFormed(r, inline)
    decreases after
  {
    if n.Section? && before.TableV? && after.TableV? {
      PatchKeepsWellFormedEntries(n.entries, before.fields, after.fields, r.entries, false);
    } else if n.Inline? && before.TableV? && after.TableV? {
      PatchKeepsWellFormedEntries(n.entries, before.fields, after.fields, r.entries, true);
    } else if n.List? && before.ArrayV? && after.ArrayV? {
      forall i | 0 <= i < |r.elems| ensures WellFormed(r.elems[i], true) {
        if i < |n.elems| && i < |before.items| && before.items[i] != after.items[i] {
          PatchKeepsWellFormed(n.elems[i], before.items[i], after.items[i], r.elems[i], true);
        }
      }
    } else if n.Sections? && before.ArrayV? && after.ArrayV? && AllTables(before.items) && AllTables(after.items) {
      forall i | 0 <= i < |r.tables| ensures r.tables[i].Section? && WellFormed(r.tables[i], false) {
        if i < |n.tables| && i < |before.items| && before.items[i] != after.items[i] {
          PatchKeepsWellFormed(n.tables[i], before.items[i], after.items[i], r.tables[i], false);
        }
      }
    }
  }

  lemma {:induction false} PatchKeepsWellFormedEntries(es: seq<Entry>, before: Fields, after: Fields, rs: seq<Entry>, inline: bool)
    requires WellFormedEntries(es, inline) && PatchedEntries(es, before, after, rs, inline)
    ensures WellFormedEntries(rs, inline)
    decreases TableV(after), 0
  {
    var ws := Without(es, before.Keys - after.Keys);
    WithoutSubset(es, before.Keys - after.Keys, inline);
    forall i | 0 <= i < |rs| ensures WellFormed(rs[i].node, inline) {
      if i < |ws| && Changed(ws[i].key, before, after) && ws[i].key in before {
        PatchKeepsWellFormed(ws[i].node, before[ws[i].key], after[ws[i].key], rs[i].node, inline);
      }
    }
  }

  /** A document that agrees with `before` agrees with `after` once patched, at every depth. */
  lemma {:induction false} PatchIsExact(n: Node, before: Toml, after: Toml, r: Node, inline: bool)
    requires WellFormed(n, inline) && PatchedNode(n, before, after, r, inline)
    requires Agrees(n, before)
    ensures Agrees(r, after)
    decreases after
  {
    if n.Section? && before.TableV? && after.TableV? {
      PatchIsExactOn(n.entries, before.fields, after.fields, r.entries, false);
    } else if n.Inline? && before.TableV? && after.TableV? {
      PatchIsExactOn(n.entries, before.fields, after.fields, r.entries, true);
    } else if n.List? && before.ArrayV? && after.ArrayV? {
      PatchIsExactIn(n.elems, before.items, after.items, r.elems, true);
    } else if n.Sections? && before.ArrayV? && after.ArrayV? && AllTables(before.items) && AllTables(after.items) {
      PatchIsExactIn(n.tables, before.items, after.items, r.tables, false);
    } else {
      AgreesWithOwnValue(r, inline);
    }
  }

  lemma {:induction false} PatchIsExactOn(es: seq<Entry>, before: Fields, after: Fields, rs: seq<Entry>, inline: bool)
    requires WellFormedEntries(es, inline) && PatchedEntries(es, before, after, rs, inline)
    requires AgreesOn(es, before)
    ensures AgreesOn(rs, after)
    decreases TableV(after), 0
  {
    var ws := Without(es, before.Keys - after.Keys);
    WithoutSubset(es, before.Keys - after.Keys, inline);
    forall i | 0 <= i < |rs| && rs[i].key in after ensures Agrees(rs[i].node, after[rs[i].key]) {
      var k := rs[i].key;
      if i < |ws| {
        assert ws[i] in es;
        if Changed(k, before, after) {
          if k in before {
            PatchIsExact(ws[i].node, before[k], after[k], rs[i].node, inline);
          } else {
            AgreesWithOwnValue(rs[i].node, inline);
          }
        }
      } else {
        AgreesWithOwnValue(rs[i].node, inline);
      }
    }
  }

  lemma {:induction false} PatchIsExactIn(ns: seq<Node>, before: seq<Toml>, after: seq<Toml>, rs: seq<Node>, inline: bool)
    requires forall i :: 0 <= i < |ns| ==> WellFormed(ns[i], inline)
    requires PatchedElements(ns, before, after, rs, inline)
    requires |ns| == |before| && forall i :: 0 <= i < |ns| ==> Agrees(ns[i], before[i])
    ensures |rs| == |after| && forall i :: 0 <= i < |rs| ==> Agrees(rs[i], after[i])
    decreases ArrayV(after), 0
  {
    forall i | 0 <= i < |rs| ensures Agrees(rs[i], after[i]) {
      if i < |ns| {
        if before[i] != after[i] { PatchIsExact(ns[i], before[i], after[i], rs[i], inline); }
      } else {
        AgreesWithOwnValue(rs[i], inline);
      }
    }
  }

  // --- guarantee 2: every requested change is there ---

  /** Every change from `before` to `after` is present in `r`: a dropped key is gone, a new or
      retyped value is exactly the one of `after`, an array has its new length, and a change
      inside a table or an array that both sides have is carried likewise. */
  ghost predicate Carries(r: Node, before: Toml, after: Toml)
    decreases after, 1
  {
    if before.TableV? && after.TableV? then
      (r.Section? || r.Inline?) && CarriesOn(r.entries, before.fields, after.fields)
    else if before.ArrayV? && after.ArrayV? then
      (r.List? || r.Sections?) && CarriesIn(if r.List? then r.elems else r.tables, before.items, after.items)
    else
      ValueOf(r) == after
  }

  ghost predicate CarriesOn(rs: seq<Entry>, before: Fields, after: Fields)
    decreases TableV(after), 0
  {
    && (forall k :: k in before && k !in after ==> k !in KeySet(rs))
    && (forall k :: Changed(k, before, after) ==> k in KeySet(rs))
    && (forall i :: 0 <= i < |rs| && Changed(rs[i].key, before, after) ==>
          if rs[i].key in before then Carries(rs[i].node, before[rs[i].key], after[rs[i].key])
          else ValueOf(rs[i].node) == after[rs[i].key])
  }

  ghost predicate CarriesIn(rs: seq<Node>, before: seq<Toml>, after: seq<Toml>)
    decreases ArrayV(after), 0
  {
    && |rs| == |after|
    && forall i :: 0 <= i < |after| && i < |before| && before[i] != after[i] ==> Carries(rs[i], before[i], after[i])
  }

  /** A node that denotes `after` carries every change to it. */
  lemma {:induction false} OwnValueCarries(r: Node, before: Toml, after: Toml, inline: bool)
    requires Denotes(r, after, inline)
    ensures Carries(r, before, after)
    decreases after
  {
    if before.TableV? && after.TableV? {
      var sub := r.Inline?;
      assert WellFormedEntries(r.entries, sub);
      forall i | 0 <= i < |r.entries| && r.entries[i].key in before.fields
        ensures Carries(r.entries[i].node, before.fields[r.entries[i].key], after.fields[r.entries[i].key])
      {
        FindOwnKey(r.entries, i);
        assert r.entries[i].key in KeySet(r.entries);
        OwnValueCarries(r.entries[i].node, before.fields[r.entries[i].key], after.fields[r.entries[i].key], sub);
      }
      forall i | 0 <= i < |r.entries| ensures ValueOf(r.entries[i].node) == after.fields[r.entries[i].key] {
        FindOwnKey(r.entries, i);
        assert r.entries[i].key in KeySet(r.entries);
      }
    } else if before.ArrayV? && after.ArrayV? {
      var rs := if r.List? then r.elems else r.tables;
      forall i | 0 <= i < |after.items| && i < |before.items| ensures Carries(rs[i], before.items[i], after.items[i]) {
        OwnValueCarries(rs[i], before.items[i], after.items[i], r.List?);
      }
    }
  }

  /** Whatever the document held, after the patch it carries every requested change. */
  lemma {:induction false} PatchCarriesChanges(n: Node, before: Toml, after: Toml, r: Node, inline: bool)
    requires WellFormed(n, inline) && PatchedNode(n, before, after, r, inline)
    ensures Carries(r, before, after)
    decreases after
  {
    if (n.Section? || n.Inline?) && before.TableV? && after.TableV? {
      PatchCarriesOn(n.entries, before.fields, after.fields, r.entries, n.Inline?);
    } else if n.List? && before.ArrayV? && after.ArrayV? {
      PatchCarriesIn(n.elems, before.items, after.items, r.elems, true);
    } else if n.Sections? && before.ArrayV? && after.ArrayV? && AllTables(before.items) && AllTables(after.items) {
      PatchCarriesIn(n.tables, before.items, after.items, r.tables, false);
    } else {
      OwnValueCarries(r, before, after, inline);
    }
  }

  lemma {:induction false} PatchCarriesOn(es: seq<Entry>, before: Fields, after: Fields, rs: seq<Entry>, inline: bool)
    requires WellFormedEntries(es, inline) && PatchedEntries(es, before, after, rs, inline)
    ensures CarriesOn(rs, before, after)
    decreases TableV(after), 0
  {
    var gone := before.Keys - after.Keys;
    var ws := Without(es, gone);
    WithoutSubset(es, gone, inline);
    forall i | 0 <= i < |rs| ensures rs[i].key !in gone {
      if i < |ws| { assert ws[i] in ws; }
    }
    forall i | 0 <= i < |rs| && Changed(rs[i].key, before, after)
      ensures if rs[i].key in before then Carries(rs[i].node, before[rs[i].key], after[rs[i].key])
              else ValueOf(rs[i].node) == after[rs[i].key]
    {
      var k := rs[i].key;
      if k in before {
        if i < |ws| {
          PatchCarriesChanges(ws[i].node, before[k], after[k], rs[i].node, inline);
        } else {
          OwnValueCarries(rs[i].node, before[k], after[k], inline);
        }
      }
    }
  }

  lemma {:induction false} PatchCarriesIn(ns: seq<Node>, before: seq<Toml>, after: seq<Toml>, rs: seq<Node>, inline: bool)
    requires forall i :: 0 <= i < |ns| ==> WellFormed(ns[i], inline)
    requires PatchedElements(ns, before, after, rs, inline)
    ensures CarriesIn(rs, before, after)
    decreases ArrayV(after), 0
  {
    forall i | 0 <= i < |after| && i < |before| && before[i] != after[i] ensures Carries(rs[i], before[i], after[i]) {
      if i < |ns| {
        PatchCarriesChanges(ns[i], before[i], after[i], rs[i], inline);
      } else {
        OwnValueCarries(rs[i], before[i], after[i], inline);
      }
    }
  }

  // --- guarantee 3: a document that denotes `before` denotes `after` once patched ---

  lemma {:induction false} PatchOfEqualValue(n: Node, before: Toml, after: Toml, r: Node, inline: bool)
    requires WellFormed(n, inline) && PatchedNode(n, before, after, r, inline)
    requires ValueOf(n) == before
    ensures ValueOf(r) == after
    decreases after
  {
    if (n.Section? || n.Inline?) && before.TableV? && after.TableV? {
      PatchOfEqualFields(n.entries, before.fields, after.fields, r.entries, n.Inline?);
    } else if n.List? && before.ArrayV? && after.ArrayV? {
      PatchOfEqualItems(n.elems, before.items, after.items, r.elems, true);
    } else if n.Sections? && before.ArrayV? && after.ArrayV? && AllTables(before.items) && AllTables(after.items) {
      PatchOfEqualItems(n.tables, before.items, after.items, r.tables, false);
    }
  }

  lemma {:induction false} PatchOfEqualFields(es: seq<Entry>, before: Fields, after: Fields, rs: seq<Entry>, inline: bool)
    requires WellFormedEntries(es, inline) && PatchedEntries(es, before, after, rs, inline)
    requires FieldsOf(es) == before
    ensures FieldsOf(rs) == after
    decreases TableV(after), 0
  {
    var gone := before.Keys - after.Keys;
    var ws := Without(es, gone);
    WithoutSubset(es, gone, inline);
    assert KeySet(es) == before.Keys;
    forall i | 0 <= i < |rs| ensures rs[i].key in after && ValueOf(rs[i].node) == after[rs[i].key] {
      var k := rs[i].key;
      if i < |ws| {
        assert ws[i] in es;
        var j :| 0 <= j < |es| && es[j] == ws[i];
        FindOwnKey(es, j);
        assert k in KeySet(es);
        if Changed(k, before, after) {
          PatchOfEqualValue(ws[i].node, before[k], after[k], rs[i].node, inline);
        }
      }
    }
    assert KeySet(rs) == after.Keys by {
      forall k | k in after ensures k in KeySet(rs) {
        if !Changed(k, before, after) {
          assert k in KeySet(ws);
          var i := KeyAt(ws, k);
          assert rs[i].key == k;
        }
      }
    }
    FieldsAre(rs, after);
  }

  lemma {:induction false} PatchOfEqualItems(ns: seq<Node>, before: seq<Toml>, after: seq<Toml>, rs: seq<Node>, inline: bool)
    requires forall i :: 0 <= i < |ns| ==> WellFormed(ns[i], inline)
    requires PatchedElements(ns, before, after, rs, inline)
    requires |ns| == |before| && forall i :: 0 <= i < |ns| ==> ValueOf(ns[i]) == before[i]
    ensures |rs| == |after| && forall i :: 0 <= i < |rs| ==> ValueOf(rs[i]) == after[i]
    decreases ArrayV(after), 0
  {
    forall i | 0 <= i < |rs| ensures ValueOf(rs[i]) == after[i] {
      if i < |ns| && before[i] != after[i] { PatchOfEqualValue(ns[i], before[i], after[i], rs[i], inline); }
    }
  }

  // --- guarantee 4: the frame ---

  datatype Step = Key(key: string) | Index(index: nat)

  /** The node a path leads to. */
  function Follow(n: Node, path: seq<Step>): Option<Node>
    decreases |path|
  {
    if path == [] then Some(n)
    else match Child(n, path[0]) case None => None case Some(c) => Follow(c, path[1..])
  }

  function Child(n: Node, step: Step): Option<Node> {
    match step
    case Key(k) =>
      if (n.Section? || n.Inline?) && Find(n.entries, k) < |n.entries|
      then Some(n.entries[Find(n.entries, k)].node) else None
    case Index(i) =>
      if n.List? && i < |n.elems| then Some(n.elems[i])
      else if n.Sections? && i < |n.tables| then Some(n.tables[i])
      else None
  }

  /** What is written around a node that a path leaves, and around the key it takes. */
  datatype Mark = ValueMark(decor: Decor) | HeaderMark(decor: Decor, position: Option<nat>) | NoMark | KeyMark(decor: Decor)

  function OwnMark(n: Node): Mark {
    match n
    case Section(_, d, p) => HeaderMark(d, p)
    case Sections(_) => NoMark
    case _ => ValueMark(n.decor)
  }

  function StepMarks(n: Node, step: Step): seq<Mark> {
    if step.Key? && (n.Section? || n.Inline?) && Find(n.entries, step.key) < |n.entries|
    then [OwnMark(n), KeyMark(n.entries[Find(n.entries, step.key)].keyDecor)]
    else [OwnMark(n)]
  }

  /** All decoration on the way: of every node the path leaves and of every key it takes, the
      last one included. With the node at the end, this is the whole entry a path leads to. */
  function Way(n: Node, path: seq<Step>): seq<Mark>
    decreases |path|
  {
    if path == [] then []
    else match Child(n, path[0])
      case None => []
      case Some(c) => StepMarks(n, path[0]) + Way(c, path[1..])
  }

  /** The plain value a path leads to. */
  function At(v: Toml, path: seq<Step>): Option<Toml>
    decreases |path|
  {
    if path == [] then Some(v)
    else match path[0]
      case Key(k) => if v.TableV? && k in v.fields then At(v.fields[k], path[1..]) else None
      case Index(i) => if v.ArrayV? && i < |v.items| then At(v.items[i], path[1..]) else None
  }

  /** The requested delta does not reach the end of `path`: on the way there, some step names
      a key or an index for which `before` and `after` have equal values, or for which neither
      has one. An array of tables is only edited in place while both sides hold tables. */
  ghost predicate Undisturbed(n: Node, before: Toml, after: Toml, path: seq<Step>)
    decreases |path|
  {
    path != [] &&
    match path[0]
    case Key(k) =>
      && (n.Section? || n.Inline?) && before.TableV? && after.TableV?
      && var i := Find(n.entries, k);
         i < |n.entries| &&
         if k in before.fields && k in after.fields then
           before.fields[k] == after.fields[k]
           || Undisturbed(n.entries[i].node, before.fields[k], after.fields[k], path[1..])
         else k !in before.fields && k !in after.fields
    case Index(i) =>
      && (n.List? || n.Sections?) && before.ArrayV? && after.ArrayV?
      && (n.Sections? ==> AllTables(before.items) && AllTables(after.items))
      && var ns := if n.List? then n.elems else n.tables;
         i < |ns| && i < |after.items| &&
         if i < |before.items| then
           before.items[i] == after.items[i]
           || Undisturbed(ns[i], before.items[i], after.items[i], path[1..])
         else true
  }

  /** Where a surviving entry ends up, and what became of it. */
  lemma PatchedAt(es: seq<Entry>, before: Fields, after: Fields, rs: seq<Entry>, inline: bool, i: nat)
    returns (j: nat)
    requires Distinct(es) && PatchedEntries(es, before, after, rs, inline)
    requires i < |es| && (es[i].key in before ==> es[i].key in after)
    ensures j < |rs| && Find(rs, es[i].key) == j
    ensures !Changed(es[i].key, before, after) ==> rs[j] == es[i]
    ensures Changed(es[i].key, before, after) && es[i].key in before ==>
              rs[j].keyDecor == es[i].keyDecor
              && PatchedNode(es[i].node, before[es[i].key], after[es[i].key], rs[j].node, inline)
  {
    var ws := Without(es, before.Keys - after.Keys);
    assert es[i] in ws;
    j :| 0 <= j < |ws| && ws[j] == es[i];
    FindOwnKey(rs, j);
  }

  /** One step into a part of the document that both sides still have: the decoration passed on
      the way is kept, and what the step leads to was patched, or is the same. */
  lemma PatchedChild(n: Node, before: Toml, after: Toml, r: Node, inline: bool, step: Step)
    requires WellFormed(n, inline) && PatchedNode(n, before, after, r, inline)
    requires Child(n, step).Some? && Kept(n, before, after, step)
    ensures Child(r, step).Some? && StepMarks(r, step) == StepMarks(n, step)
    ensures var b, a := At(before, [step]), At(after, [step]);
            if b.Some? && a.Some? && b != a
            then WellFormed(Child(n, step).value, inline || n.Inline? || n.List?)
              && PatchedNode(Child(n, step).value, b.value, a.value, Child(r, step).value, inline || n.Inline? || n.List?)
            else Child(r, step) == Child(n, step)
  {
    match step
    case Key(k) =>
      var i := Find(n.entries, k);
      var j := PatchedAt(n.entries, before.fields, after.fields, r.entries, n.Inline?, i);
    case Index(i) =>
  }

  /** The step leads to something that is edited in place or not at all. */
  ghost predicate Kept(n: Node, before: Toml, after: Toml, step: Step) {
    match step
    case Key(k) =>
      && (n.Section? || n.Inline?) && before.TableV? && after.TableV?
      && (k in before.fields <==> k in after.fields)
    case Index(i) =>
      && (n.List? || n.Sections?) && before.ArrayV? && after.ArrayV?
      && (n.Sections? ==> AllTables(before.items) && AllTables(after.items))
      && i < |after.items|
  }

  /** Whatever the delta does not reach is identical afterwards, and so is all decoration on the
      way to it: of the tables and arrays it stands in, and of its key and theirs. */
  lemma {:induction false} PatchKeepsTheRest(n: Node, before: Toml, after: Toml, r: Node, inline: bool, path: seq<Step>)
    requires WellFormed(n, inline) && PatchedNode(n, before, after, r, inline)
    requires Undisturbed(n, before, after, path)
    ensures Follow(r, path) == Follow(n, path)
    ensures Way(r, path) == Way(n, path)
    decreases |path|
  {
    PatchedChild(n, before, after, r, inline, path[0]);
    var b, a := At(before, [path[0]]), At(after, [path[0]]);
    if b.Some? && a.Some? && b != a {
      PatchKeepsTheRest(Child(n, path[0]).value, b.value, a.value, Child(r, path[0]).value,
                        inline || n.Inline? || n.List?, path[1..]);
    }
  }

  /** `path` follows keys and indices that both `before` and `after` have, and in the document too. */
  ghost predicate Shared(n: Node, before: Toml, after: Toml, path: seq<Step>)
    decreases |path|
  {
    path == [] ||
    match path[0]
    case Key(k) =>
      && (n.Section? || n.Inline?) && before.TableV? && after.TableV?
      && k in before.fields && k in after.fields
      && Find(n.entries, k) < |n.entries|
      && Shared(n.entries[Find(n.entries, k)].node, before.fields[k], after.fields[k], path[1..])
    case Index(i) =>
      && (n.List? || n.Sections?) && before.ArrayV? && after.ArrayV?
      && (n.Sections? ==> AllTables(before.items) && AllTables(after.items))
      && i < |before.items| && i < |after.items|
      && var ns := if n.List? then n.elems else n.tables;
         i < |ns| && Shared(ns[i], before.items[i], after.items[i], path[1..])
  }

  /** A value replaced by another value keeps its decoration, wherever it is, and so does a
      table replaced by a table; the decoration on the way, keys included, is kept as well. */
  lemma {:induction false} PatchKeepsDecor(n: Node, before: Toml, after: Toml, r: Node, inline: bool, path: seq<Step>)
    requires WellFormed(n, inline) && PatchedNode(n, before, after, r, inline)
    requires Shared(n, before, after, path)
    ensures Follow(n, path).Some? && Follow(r, path).Some?
    ensures Way(r, path) == Way(n, path)
    ensures var old_, new_ := Follow(n, path).value, Follow(r, path).value;
            && (IsValue(old_) && IsValue(new_) ==> new_.decor == old_.decor)
            && (old_.Section? && new_.Section? ==> new_.decor == old_.decor)
    decreases |path|
  {
    if path != [] {
      var c := Child(n, path[0]).value;
      PatchedChild(n, before, after, r, inline, path[0]);
      var b, a := At(before, [path[0]]).value, At(after, [path[0]]).value;
      if b != a {
        PatchKeepsDecor(c, b, a, Child(r, path[0]).value, inline || n.Inline? || n.List?, path[1..]);
      } else {
        SharedFollows(c, b, a, path[1..]);
      }
    }
  }

  lemma {:induction false} SharedFollows(n: Node, before: Toml, after: Toml, path: seq<Step>)
    requires Shared(n, before, after, path)
    ensures Follow(n, path).Some? && At(before, path).Some? && At(after, path).Some?
    decreases |path|
  {
    if path != [] {
      match path[0]
      case Key(k) =>
        SharedFollows(n.entries[Find(n.entries, k)].node, before.fields[k], after.fields[k], path[1..]);
      case Index(i) =>
        SharedFollows((if n.List? then n.elems else n.tables)[i], before.items[i], after.items[i], path[1..]);
    }
  }

  // --- guarantee 5: the order of the keys ---

  /** A key the patch leaves in the table. */
  predicate Survives(k: string, es: seq<Entry>, before: Fields, after: Fields) {
    k in KeySet(es) && (k in before ==> k in after)
  }

  lemma {:induction false} WithoutKeepsOrder(es: seq<Entry>, gone: set<string>, k: string, l: string)
    requires k in KeySet(es) && l in KeySet(es) && k !in gone && l !in gone && Find(es, k) < Find(es, l)
    ensures Find(Without(es, gone), k) < Find(Without(es, gone), l) < |Without(es, gone)|
  {
    KeySetCons(es);
    var rest := Without(es[1..], gone);
    assert es[0].key !in gone ==> Without(es, gone)[1..] == rest;
    if es[0].key != k {
      WithoutKeepsOrder(es[1..], gone, k, l);
    } else {
      StillFound(es[1..], gone, l);
    }
  }

  lemma {:induction false} StillFound(es: seq<Entry>, gone: set<string>, k: string)
    requires k in KeySet(es) && k !in gone
    ensures Find(Without(es, gone), k) < |Without(es, gone)|
  {
    var e := es[Find(es, k)];
    assert e in Without(es, gone);
  }

  /** Surviving keys stand in their old order, before all new ones. */
  lemma OrderOfEntries(es: seq<Entry>, before: Fields, after: Fields, rs: seq<Entry>, inline: bool, k: string, l: string)
    requires PatchedEntries(es, before, after, rs, inline)
    requires Survives(k, es, before, after) && l in KeySet(rs)
    requires Survives(l, es, before, after) ==> Find(es, k) < Find(es, l)
    requires l in KeySet(es) ==> Survives(l, es, before, after)
    ensures Find(rs, k) < Find(rs, l) < |rs|
  {
    var gone := before.Keys - after.Keys;
    var ws := Without(es, gone);
    StillFound(es, gone, k);
    SameFind(ws, rs, k);
    if l in KeySet(es) {
      WithoutKeepsOrder(es, gone, k, l);
      SameFind(ws, rs, l);
    } else {
      forall j | 0 <= j < |ws| ensures rs[j].key in KeySet(es) {
        assert ws[j] in ws;
      }
    }
  }

  lemma SameFind(ws: seq<Entry>, rs: seq<Entry>, k: string)
    requires |ws| <= |rs| && (forall i :: 0 <= i < |ws| ==> rs[i].key == ws[i].key) && Find(ws, k) < |ws|
    ensures Find(rs, k) == Find(ws, k)
  {
    assert rs[Find(ws, k)].key in KeySet(rs);
  }

  /** At every depth, in every table that both sides have as a table: the keys that survive keep
      their relative order, and new keys come after them. */
  lemma {:induction false} PatchKeepsKeyOrder(n: Node, before: Toml, after: Toml, r: Node, inline: bool,
                                              path: seq<Step>, k: string, l: string)
    requires WellFormed(n, inline) && PatchedNode(n, before, after, r, inline)
    requires Shared(n, before, after, path)
    requires InTable(n, before, after, r, path, k, l)
    ensures Precedes(Follow(r, path).value, k, l)
    decreases |path|
  {
    if path == [] {
      KeyOrderHere(n, before, after, r, inline, k, l);
    } else {
      var c, d := SharedChild(n, before, after, r, inline, path);
      var b, a := At(before, [path[0]]).value, At(after, [path[0]]).value;
      InTableBelow(n, before, after, r, path, k, l, c, b, a, d);
      if b != a {
        PatchKeepsKeyOrder(c, b, a, d, inline || n.Inline? || n.List?, path[1..], k, l);
      } else {
        SameOrder(c, b, a, path[1..], k, l);
      }
    }
  }

  predicate Precedes(n: Node, k: string, l: string) {
    (n.Section? || n.Inline?) && Find(n.entries, k) < Find(n.entries, l) < |n.entries|
  }

  lemma KeyOrderHere(n: Node, before: Toml, after: Toml, r: Node, inline: bool, k: string, l: string)
    requires PatchedNode(n, before, after, r, inline) && InTable(n, before, after, r, [], k, l)
    ensures Precedes(r, k, l)
  {
    OrderOfEntries(n.entries, before.fields, after.fields, r.entries, n.Inline?, k, l);
  }

  lemma SameOrder(n: Node, before: Toml, after: Toml, path: seq<Step>, k: string, l: string)
    requires InTable(n, before, after, n, path, k, l)
    ensures Precedes(Follow(n, path).value, k, l)
  {
  }

  /** The first step along a shared path, in the document before and after. */
  lemma SharedChild(n: Node, before: Toml, after: Toml, r: Node, inline: bool, path: seq<Step>) returns (c: Node, d: Node)
    requires WellFormed(n, inline) && PatchedNode(n, before, after, r, inline)
    requires path != [] && Shared(n, before, after, path)
    ensures Child(n, path[0]) == Some(c) && Child(r, path[0]) == Some(d)
    ensures var b, a := At(before, [path[0]]), At(after, [path[0]]);
            && b.Some? && a.Some? && Shared(c, b.value, a.value, path[1..])
            && if b != a
               then WellFormed(c, inline || n.Inline? || n.List?)
                 && PatchedNode(c, b.value, a.value, d, inline || n.Inline? || n.List?)
               else d == c
  {
    PatchedChild(n, before, after, r, inline, path[0]);
    c, d := Child(n, path[0]).value, Child(r, path[0]).value;
  }

  lemma InTableBelow(n: Node, before: Toml, after: Toml, r: Node, path: seq<Step>, k: string, l: string,
                     c: Node, b: Toml, a: Toml, d: Node)
    requires path != [] && Child(n, path[0]) == Some(c) && Child(r, path[0]) == Some(d)
    requires At(before, [path[0]]) == Some(b) && At(after, [path[0]]) == Some(a)
    requires InTable(n, before, after, r, path, k, l)
    ensures InTable(c, b, a, d, path[1..], k, l)
    ensures Follow(n, path) == Follow(c, path[1..]) && Follow(r, path) == Follow(d, path[1..])
  {
    assert [path[0]][1..] == [];
  }

  /** `path` leads to a table before and after; `k` survives in it, and `l` either survives and
      stood after `k`, or is new. */
  ghost predicate InTable(n: Node, before: Toml, after: Toml, r: Node, path: seq<Step>, k: string, l: string) {
    var m, q, b, a := Follow(n, path), Follow(r, path), At(before, path), At(after, path);
    && m.Some? && (m.value.Section? || m.value.Inline?)
    && q.Some? && (q.value.Section? || q.value.Inline?)
    && b.Some? && b.value.TableV? && a.Some? && a.value.TableV?
    && Survives(k, m.value.entries, b.value.fields, a.value.fields) && l in KeySet(q.value.entries)
    && (l in KeySet(m.value.entries) ==>
          Survives(l, m.value.entries, b.value.fields, a.value.fields) && Find(m.value.entries, k) < Find(m.value.entries, l))
  }

  // --- guarantee 6: new tables are sections ---

  /** At every depth, in every table that both sides have as a table and that is written as a
      section: what is added under a key that neither `before` nor the document had is written as
      sections too, and stands at the end. */
  lemma {:induction false} NewKeysAreSections(n: Node, before: Toml, after: Toml, r: Node, inline: bool, path: seq<Step>, k: string)
    requires WellFormed(n, inline) && PatchedNode(n, before, after, r, inline)
    requires Shared(n, before, after, path) && IsNewIn(n, before, after, path, k)
    ensures Follow(r, path).Some?
    ensures var q := Follow(r, path).value;
            && q.Section? && Find(q.entries, k) < |q.entries|
            && Sectioned(q.entries[Find(q.entries, k)].node)
            && ValueOf(q.entries[Find(q.entries, k)].node) == At(after, path).value.fields[k]
    decreases |path|
  {
    if path == [] {
      NewKeyHere(n.entries, before.fields, after.fields, r.entries, k);
    } else {
      var c, d := SharedChild(n, before, after, r, inline, path);
      var b, a := At(before, [path[0]]).value, At(after, [path[0]]).value;
      NewBelow(n, before, after, r, path, k, c, b, a, d);
      if b != a {
        NewKeysAreSections(c, b, a, d, inline || n.Inline? || n.List?, path[1..], k);
      }
    }
  }

  ghost predicate IsNewIn(n: Node, before: Toml, after: Toml, path: seq<Step>, k: string) {
    var m, b, a := Follow(n, path), At(before, path), At(after, path);
    && m.Some? && m.value.Section? && b.Some? && b.value.TableV? && a.Some? && a.value.TableV?
    && k in a.value.fields && k !in b.value.fields && k !in KeySet(m.value.entries)
  }

  lemma NewKeyHere(es: seq<Entry>, before: Fields, after: Fields, rs: seq<Entry>, k: string)
    requires PatchedEntries(es, before, after, rs, false)
    requires k in after && k !in before && k !in KeySet(es)
    ensures Find(rs, k) < |rs| && Denotes(rs[Find(rs, k)].node, after[k], false)
  {
    var ws := Without(es, before.Keys - after.Keys);
    assert Changed(k, before, after);
    var i := Find(rs, k);
    if i < |ws| { assert ws[i] in ws; }
  }

  lemma NewBelow(n: Node, before: Toml, after: Toml, r: Node, path: seq<Step>, k: string, c: Node, b: Toml, a: Toml, d: Node)
    requires path != [] && Child(n, path[0]) == Some(c) && Child(r, path[0]) == Some(d)
    requires At(before, [path[0]]) == Some(b) && At(after, [path[0]]) == Some(a)
    requires IsNewIn(n, before, after, path, k)
    ensures IsNewIn(c, b, a, path[1..], k)
    ensures Follow(r, path) == Follow(d, path[1..]) && At(after, path) == At(a, path[1..])
  {
    assert [path[0]][1..] == [];
  }

  /** An empty delta leaves a table exactly as it was. */
  lemma EmptyDelta(n: Node, v: Toml, r: Node, inline: bool)
    requires n.Section? || n.Inline?
    requires v.TableV? && PatchedNode(n, v, v, r, inline)
    ensures r == n
  {
    EmptyDeltaOn(n.entries, v.fields, r.entries, n.Inline?);
  }

  lemma EmptyDeltaOn(es: seq<Entry>, fields: Fields, rs: seq<Entry>, inline: bool)
    requires PatchedEntries(es, fields, fields, rs, inline)
    ensures rs == es
  {
    WithoutNothing(es);
    assert fields.Keys - fields.Keys == {};
    assert PatchedSoFar(es, fields, fields, fields.Keys, rs, inline);
    if rs != [] {
      assert !Changed(rs[|rs| - 1].key, fields, fields);
    }
  }

  lemma {:induction false} WithoutNothing(es: seq<Entry>)
    ensures Without(es, {}) == es
  {
    if es != [] { WithoutNothing(es[1..]); }
  }
}
