/** The patcher of panoptikon-config/src/lib.rs, as loops over the concrete tree. */
module TomlPatch {
  // Keys are visited in an arbitrary order: the source iterates a map whose order depends on how
  // the `toml` crate is built.

  import opened Prelude
  import opened TomlTree
  import opened TomlPatchSpec

  const PLAIN := Decor("", "")

  /** `item_from_toml` and, with `inline`, `value_from_toml`: some fresh node that denotes `v`. */
  method ItemFromToml(v: Toml, inline: bool) returns (n: Node)
    ensures Denotes(n, v, inline)
    ensures v.TableV? ==> if inline then n.Inline? else n.Section?
    decreases v
  {
    match v
    case ScalarV(s) =>
      var spelling: string := *;
      n := Leaf(s, spelling, PLAIN);
    case ArrayV(items) =>
      var asTables := !inline && items != [] && AllTables(items);
      var elems: seq<Node> := [];
      for i := 0 to |items|
        invariant |elems| == i
        invariant forall j :: 0 <= j < i ==> Denotes(elems[j], items[j], !asTables)
        invariant asTables ==> forall j :: 0 <= j < i ==> elems[j].Section?
      {
        var e := ItemFromToml(items[i], !asTables);
        elems := elems + [e];
      }
      n := if asTables then Sections(elems) else List(elems, PLAIN);
      if !inline && !asTables && items != [] {
        var i :| 0 <= i < |items| && !items[i].TableV?;
        assert Denotes(elems[i], items[i], true) && !elems[i].Inline?;
      }
    case TableV(fields) =>
      var es: seq<Entry> := [];
      var todo := fields.Keys;
      while todo != {}
        invariant todo <= fields.Keys && KeySet(es) == fields.Keys - todo
        invariant Distinct(es)
        invariant forall i :: 0 <= i < |es| ==> es[i].key in fields && Denotes(es[i].node, fields[es[i].key], inline)
        decreases todo
      {
        var k :| k in todo;
        var child := ItemFromToml(fields[k], inline);
        KeySetAppend(es, Entry(k, PLAIN, child));
        es := es + [Entry(k, PLAIN, child)];
        todo := todo - {k};
      }
      FieldsAre(es, fields);
      n := if inline then Inline(es, PLAIN) else Section(es, PLAIN, None);
  }

  lemma KeySetAppend(es: seq<Entry>, e: Entry)
    ensures KeySet(es + [e]) == KeySet(es) + {e.key}
    ensures Distinct(es) && e.key !in KeySet(es) ==> Distinct(es + [e])
  {
    var rs := es + [e];
    forall k | k in KeySet(es) ensures k in KeySet(rs) {
      var i := KeyAt(es, k);
      assert rs[i].key == k;
    }
    assert rs[|es|] == e;
    forall i | 0 <= i < |es| ensures rs[i].key in KeySet(es) {
    }
  }

  /** `patch_table` and `patch_inline_table`: drop the keys `after` lost, then bring every key
      whose value differs up to date. */
  method PatchTable(es: seq<Entry>, before: Fields, after: Fields, inline: bool) returns (rs: seq<Entry>)
    requires WellFormedEntries(es, inline)
    ensures PatchedEntries(es, before, after, rs, inline)
    decreases TableV(after), 1
  {
    ghost var gone := before.Keys - after.Keys;
    ghost var ws := Without(es, gone);
    WithoutSubset(es, gone, inline);
    rs := DropKeys(es, before.Keys - after.Keys);

    var todo := after.Keys;
    while todo != {}
      invariant todo <= after.Keys
      invariant PatchedSoFar(ws, before, after, after.Keys - todo, rs, inline)
      decreases todo
    {
      var k :| k in todo;
      ghost var done := after.Keys - todo;
      assert after.Keys - (todo - {k}) == done + {k};
      if !(k in before && before[k] == after[k]) {
        var i := Find(rs, k);
        if i < |rs| && k in before {
          var node := PatchNode(rs[i].node, before[k], after[k], inline);
          StepPatched(ws, before, after, done, rs, inline, k, i, node);
          rs := rs[i := Entry(k, rs[i].keyDecor, node)];
        } else {
          var node := ItemFromToml(after[k], inline);
          StepInserted(ws, before, after, done, rs, inline, k, node);
          rs := Insert(rs, k, node);
        }
      } else {
        StepUnchanged(ws, before, after, done, rs, inline, k);
      }
      todo := todo - {k};
    }
    assert after.Keys - todo == after.Keys;
  }

  method DropKeys(es: seq<Entry>, gone: set<string>) returns (rs: seq<Entry>)
    ensures rs == Without(es, gone)
  {
    rs := es;
    var todo := gone;
    WithoutNothing(es);
    assert gone - todo == {};
    while todo != {}
      invariant todo <= gone && rs == Without(es, gone - todo)
      decreases todo
    {
      var k :| k in todo;
      WithoutMore(es, gone - todo, {k});
      assert gone - (todo - {k}) == (gone - todo) + {k};
      rs := Without(rs, {k});
      todo := todo - {k};
    }
    assert gone - todo == gone;
  }

  lemma {:induction false} WithoutMore(es: seq<Entry>, a: set<string>, b: set<string>)
    ensures Without(Without(es, a), b) == Without(es, a + b)
  {
    if es != [] {
      WithoutMore(es[1..], a, b);
      if es[0].key !in a {
        assert Without(es, a)[1..] == Without(es[1..], a);
      }
    }
  }

  /** Inserting replaces the item of a key that is there (its key is reformatted), and
      otherwise appends. */
  function Insert(es: seq<Entry>, k: string, n: Node): seq<Entry> {
    var i := Find(es, k);
    if i < |es| then es[i := Entry(k, PLAIN, n)] else es + [Entry(k, PLAIN, n)]
  }

  lemma KeySetUpdate(es: seq<Entry>, i: nat, e: Entry)
    requires i < |es| && es[i].key == e.key
    ensures KeySet(es[i := e]) == KeySet(es)
  {
    var rs := es[i := e];
    forall k | k in KeySet(es) ensures k in KeySet(rs) {
      var j := KeyAt(es, k);
      assert rs[j].key == k;
    }
    forall j | 0 <= j < |rs| ensures rs[j].key in KeySet(es) {
      assert rs[j].key == es[j].key;
    }
  }

  lemma StepUnchanged(ws: seq<Entry>, before: Fields, after: Fields, done: set<string>, rs: seq<Entry>, inline: bool,
                      k: string)
    requires PatchedSoFar(ws, before, after, done, rs, inline)
    requires !Changed(k, before, after)
    ensures PatchedSoFar(ws, before, after, done + {k}, rs, inline)
  {
  }

  lemma StepPatched(ws: seq<Entry>, before: Fields, after: Fields, done: set<string>, rs: seq<Entry>, inline: bool,
                    k: string, i: nat, node: Node)
    requires PatchedSoFar(ws, before, after, done, rs, inline)
    requires k !in done && k in before && Changed(k, before, after)
    requires i < |rs| && rs[i].key == k && PatchedNode(rs[i].node, before[k], after[k], node, inline)
    ensures PatchedSoFar(ws, before, after, done + {k}, rs[i := Entry(k, rs[i].keyDecor, node)], inline)
  {
    KeySetUpdate(rs, i, Entry(k, rs[i].keyDecor, node));
    assert k in KeySet(rs);
  }

  lemma StepInserted(ws: seq<Entry>, before: Fields, after: Fields, done: set<string>, rs: seq<Entry>, inline: bool,
                     k: string, node: Node)
    requires PatchedSoFar(ws, before, after, done, rs, inline)
    requires k !in done && Changed(k, before, after) && Denotes(node, after[k], inline)
    requires k in KeySet(rs) ==> k !in before
    ensures PatchedSoFar(ws, before, after, done + {k}, Insert(rs, k, node), inline)
  {
    var i := Find(rs, k);
    if i < |rs| {
      StepReplaced(ws, before, after, done, rs, inline, k, node, i);
    } else {
      StepAppended(ws, before, after, done, rs, inline, k, node);
    }
  }

  lemma StepReplaced(ws: seq<Entry>, before: Fields, after: Fields, done: set<string>, rs: seq<Entry>, inline: bool,
                     k: string, node: Node, i: nat)
    requires PatchedSoFar(ws, before, after, done, rs, inline)
    requires k !in done && Changed(k, before, after) && Denotes(node, after[k], inline)
    requires i < |rs| && rs[i].key == k && k !in before
    ensures PatchedSoFar(ws, before, after, done + {k}, rs[i := Entry(k, PLAIN, node)], inline)
  {
    KeySetUpdate(rs, i, Entry(k, PLAIN, node));
  }

  lemma StepAppended(ws: seq<Entry>, before: Fields, after: Fields, done: set<string>, rs: seq<Entry>, inline: bool,
                     k: string, node: Node)
    requires PatchedSoFar(ws, before, after, done, rs, inline)
    requires k !in done && Changed(k, before, after) && Denotes(node, after[k], inline)
    requires forall i :: 0 <= i < |rs| ==> rs[i].key != k
    ensures PatchedSoFar(ws, before, after, done + {k}, rs + [Entry(k, PLAIN, node)], inline)
  {
    KeySetAppend(rs, Entry(k, PLAIN, node));
  }

  /** `patch_item` and, with `inline`, `patch_value`. */
  method PatchNode(n: Node, before: Toml, after: Toml, inline: bool) returns (r: Node)
    requires WellFormed(n, inline)
    ensures PatchedNode(n, before, after, r, inline)
    decreases after, 2
  {
    if n.Section? && before.TableV? && after.TableV? {
      var rs := PatchTable(n.entries, before.fields, after.fields, false);
      r := Section(rs, n.decor, n.position);
    } else if n.Inline? && before.TableV? && after.TableV? {
      var rs := PatchTable(n.entries, before.fields, after.fields, true);
      r := Inline(rs, n.decor);
    } else if n.List? && before.ArrayV? && after.ArrayV? {
      var rs := PatchArray(n.elems, before.items, after.items);
      r := List(rs, n.decor);
    } else if n.Sections? && before.ArrayV? && after.ArrayV? && AllTables(before.items) && AllTables(after.items) {
      var rs := PatchArrayOfTables(n.tables, before.items, after.items);
      r := Sections(rs);
    } else {
      r := ItemFromToml(after, inline);
      if (IsValue(n) && IsValue(r)) || (n.Section? && r.Section?) {
        RedecoratedDenotes(r, n.decor, after, inline);
        r := Redecorated(r, n.decor);
      }
    }
  }

  function Redecorated(n: Node, decor: Decor): Node
    requires !n.Sections?
  {
    n.(decor := decor)
  }

  lemma RedecoratedDenotes(n: Node, decor: Decor, v: Toml, inline: bool)
    requires !n.Sections? && Denotes(n, v, inline)
    ensures Denotes(Redecorated(n, decor), v, inline)
  {
    match n
    case Leaf(_, _, _) =>
    case Inline(es, _) => assert ValueOf(Inline(es, decor)) == ValueOf(n);
    case List(xs, _) => assert ValueOf(List(xs, decor)) == ValueOf(n);
    case Section(es, _, p) => assert ValueOf(Section(es, decor, p)) == ValueOf(n);
  }

  /** The in-place part shared by both array forms: patch what both sides have, cut the tail. */
  method PatchShared(ns: seq<Node>, before: seq<Toml>, after: seq<Toml>, inline: bool) returns (rs: seq<Node>)
    requires forall i :: 0 <= i < |ns| ==> WellFormed(ns[i], inline)
    ensures |rs| == Min(|ns|, |after|)
    ensures forall i :: 0 <= i < |rs| ==>
              if i < |before| && before[i] != after[i]
              then PatchedNode(ns[i], before[i], after[i], rs[i], inline)
              else rs[i] == ns[i]
    decreases ArrayV(after), 0
  {
    rs := ns;
    for i := 0 to Min(Min(|before|, |after|), |ns|)
      invariant |rs| == |ns|
      invariant forall j :: i <= j < |ns| ==> rs[j] == ns[j]
      invariant forall j :: 0 <= j < i ==>
                  if before[j] != after[j]
                  then PatchedNode(ns[j], before[j], after[j], rs[j], inline)
                  else rs[j] == ns[j]
    {
      if before[i] != after[i] {
        var node := PatchNode(rs[i], before[i], after[i], inline);
        rs := rs[i := node];
      }
    }
    ghost var whole := rs;
    while |rs| > |after|
      invariant Min(|ns|, |after|) <= |rs| <= |ns| && rs == whole[..|rs|]
    {
      rs := rs[..|rs| - 1];
    }
  }

  method PatchArray(ns: seq<Node>, before: seq<Toml>, after: seq<Toml>) returns (rs: seq<Node>)
    requires forall i :: 0 <= i < |ns| ==> WellFormed(ns[i], true)
    ensures PatchedElements(ns, before, after, rs, true)
    decreases ArrayV(after), 1
  {
    rs := PatchShared(ns, before, after, true);
    ghost var kept := rs;
    for i := |rs| to |after|
      invariant |rs| == i && kept <= rs
      invariant forall j :: |kept| <= j < i ==> Denotes(rs[j], after[j], true)
    {
      var node := ItemFromToml(after[i], true);
      rs := rs + [node];
    }
    assert forall i :: 0 <= i < |kept| ==> rs[i] == kept[i];
  }

  method PatchArrayOfTables(ns: seq<Node>, before: seq<Toml>, after: seq<Toml>) returns (rs: seq<Node>)
    requires forall i :: 0 <= i < |ns| ==> ns[i].Section? && WellFormed(ns[i], false)
    requires AllTables(before) && AllTables(after)
    ensures PatchedElements(ns, before, after, rs, false)
    ensures NewTablesFollow(ns, rs)
    decreases ArrayV(after), 1
  {
    var kept := PatchShared(ns, before, after, false);
    var highest := MaxTablePosition(kept);
    var added := NewTables(after, |kept|, SaturatingInc(highest));
    rs := kept + added;
    KeptThenAdded(ns, before, after, kept, added);
    if |ns| < |rs| {
      assert rs[|ns|..] == added && rs[..|ns|] == kept;
    }
  }

  /** Patching the shared tables and appending the new ones patches the whole array. */
  lemma KeptThenAdded(ns: seq<Node>, before: seq<Toml>, after: seq<Toml>, kept: seq<Node>, added: seq<Node>)
    requires |kept| == Min(|ns|, |after|) && |added| == |after| - |kept|
    requires forall i :: 0 <= i < |kept| ==>
               if i < |before| && before[i] != after[i]
               then PatchedNode(ns[i], before[i], after[i], kept[i], false)
               else kept[i] == ns[i]
    requires forall j :: 0 <= j < |added| ==> added[j].Section? && Denotes(added[j], after[|kept| + j], false)
    ensures PatchedElements(ns, before, after, kept + added, false)
  {
    var rs := kept + added;
    forall i | 0 <= i < |ns| && i < |after|
      ensures if i < |before| && before[i] != after[i]
              then PatchedNode(ns[i], before[i], after[i], rs[i], false)
              else rs[i] == ns[i]
    {
      assert rs[i] == kept[i];
    }
    forall i | |ns| <= i < |after| ensures Denotes(rs[i], after[i], false) && rs[i].Section? {
      assert rs[i] == added[i - |kept|] && after[i] == after[|kept| + (i - |kept|)];
    }
  }

  /** The tables appended for `values[from..]`, numbered from `next` on. */
  method NewTables(values: seq<Toml>, from: nat, next: nat) returns (added: seq<Node>)
    requires from <= |values| && AllTables(values)
    ensures |added| == |values| - from
    ensures forall j :: 0 <= j < |added| ==> added[j].Section? && Denotes(added[j], values[from + j], false)
    ensures TablePositions(added) == Run(next, |TablePositions(added)|)
  {
    added := [];
    var position := next;
    for i := from to |values|
      invariant |added| == i - from
      invariant forall j :: 0 <= j < |added| ==> added[j].Section? && Denotes(added[j], values[from + j], false)
      invariant NumberedFrom(added, next, position)
    {
      var table := ItemFromToml(values[i], false);
      ghost var was := position;
      table, position := AssignTablePositions(table, position);
      AppendNumbered(added, next, was, table, position);
      added := added + [table];
    }
  }

  // --- table positions ---

  ghost function Advance(start: nat, count: nat): nat
    decreases count
  {
    if count == 0 then start else Advance(SaturatingInc(start), count - 1)
  }

  lemma {:induction false} RunConcat(start: nat, a: nat, b: nat)
    ensures Run(start, a) + Run(Advance(start, a), b) == Run(start, a + b)
    ensures Advance(Advance(start, a), b) == Advance(start, a + b)
    decreases a
  {
    if a > 0 {
      RunConcat(SaturatingInc(start), a - 1, b);
      assert Run(start, a) + Run(Advance(start, a), b)
          == [start] + (Run(SaturatingInc(start), a - 1) + Run(Advance(start, a), b));
    }
  }

  ghost predicate NumberedFrom(ts: seq<Node>, start: nat, end: nat) {
    var ps := TablePositions(ts);
    ps == Run(start, |ps|) && end == Advance(start, |ps|)
  }

  lemma AppendNumbered(ts: seq<Node>, start: nat, mid: nat, t: Node, end: nat)
    requires NumberedFrom(ts, start, mid)
    requires Positions(t) == Run(mid, |Positions(t)|) && end == Advance(mid, |Positions(t)|)
    ensures NumberedFrom(ts + [t], start, end)
  {
    RunConcat(start, |TablePositions(ts)|, |Positions(t)|);
    assert (ts + [t])[..|ts|] == ts;
  }

  /** The largest position at or below any of the tables, 0 if none has one. */
  method MaxTablePosition(ts: seq<Node>) returns (m: nat)
    ensures m == MaxOr(TablePositions(ts), 0)
    decreases ts, 1
  {
    m := 0;
    for i := 0 to |ts|
      invariant m == MaxOr(TablePositions(ts[..i]), 0)
    {
      var p := MaxPositionBelow(ts[i]);
      assert ts[..i + 1][..i] == ts[..i];
      MaxOrConcat(TablePositions(ts[..i]), Positions(ts[i]));
      if p > m { m := p; }
    }
    assert ts[..|ts|] == ts;
  }

  lemma NextEntryPositions(own: seq<nat>, es: seq<Entry>, i: nat)
    requires i < |es|
    ensures own + EntryPositions(es[..i + 1]) == (own + EntryPositions(es[..i])) + Positions(es[i].node)
  {
    assert es[..i + 1][..i] == es[..i];
  }

  method MaxPositionBelow(n: Node) returns (m: nat)
    ensures m == MaxOr(Positions(n), 0)
    decreases n, 0
  {
    match n
    case Section(es, _, p) =>
      m := if p.Some? then p.value else 0;
      ghost var own := if p.Some? then [p.value] else [];
      assert own + EntryPositions(es[..0]) == own;
      for i := 0 to |es|
        invariant m == MaxOr(own + EntryPositions(es[..i]), 0)
      {
        var q := MaxPositionBelow(es[i].node);
        NextEntryPositions(own, es, i);
        MaxOrConcat(own + EntryPositions(es[..i]), Positions(es[i].node));
        if q > m { m := q; }
      }
      assert es[..|es|] == es;
    case Sections(ts) =>
      m := MaxTablePosition(ts);
    case _ =>
      m := 0;
  }

  lemma MaxOrConcat(a: seq<nat>, b: seq<nat>)
    ensures MaxOr(a + b, 0) == if MaxOr(b, 0) > MaxOr(a, 0) then MaxOr(b, 0) else MaxOr(a, 0)
  {
    var m := MaxOr(a + b, 0);
    assert m != 0 ==> m in a || m in b;
    assert MaxOr(a, 0) != 0 ==> MaxOr(a, 0) in a + b;
    assert MaxOr(b, 0) != 0 ==> MaxOr(b, 0) in a + b;
  }

  /** Same value, still well formed; only positions differ. */
  ghost predicate Renumbered(n: Node, r: Node, next: nat, next': nat) {
    && ValueOf(r) == ValueOf(n) && WellFormed(r, false)
    && (n.Section? ==> r.Section?) && (Sectioned(n) ==> Sectioned(r))
    && Positions(r) == Run(next, |Positions(r)|)
    && next' == Advance(next, |Positions(r)|)
  }

  /** Number a table and every table below it from `next` on, in document order. */
  method AssignTablePositions(n: Node, next: nat) returns (r: Node, next': nat)
    requires n.Section? && WellFormed(n, false)
    ensures Renumbered(n, r, next, next')
    decreases n, 0
  {
    var es := n.entries;
    var rs: seq<Entry> := [];
    next' := SaturatingInc(next);
    ghost var ps: seq<nat> := [next];
    RunConcat(next, 1, 0);
    for i := 0 to |es|
      invariant |rs| == i
      invariant forall j :: 0 <= j < i ==> Alike(es[j], rs[j])
      invariant ps == [next] + EntryPositions(rs)
      invariant ps == Run(next, |ps|) && next' == Advance(next, |ps|)
    {
      var child;
      child, next' := AssignPositionsBelow(es[i].node, next');
      RunConcat(next, |ps|, |Positions(child)|);
      var e := Entry(es[i].key, es[i].keyDecor, child);
      assert (rs + [e])[..i] == rs;
      ps := ps + Positions(child);
      rs := rs + [e];
    }
    SameEntries(es, rs);
    AllAlike(n, rs, Some(next));
    r := Section(rs, n.decor, Some(next));
  }

  /** The entry under the same key, with the same value, but for positions. */
  ghost predicate Alike(e: Entry, r: Entry) {
    && r.key == e.key && ValueOf(r.node) == ValueOf(e.node) && WellFormed(r.node, false)
    && (Sectioned(e.node) ==> Sectioned(r.node))
  }

  lemma AllAlike(n: Node, rs: seq<Entry>, position: Option<nat>)
    requires n.Section? && WellFormed(n, false) && |rs| == |n.entries|
    requires forall j :: 0 <= j < |rs| ==> Alike(n.entries[j], rs[j])
    ensures WellFormed(Section(rs, n.decor, position), false)
    ensures Sectioned(n) ==> Sectioned(Section(rs, n.decor, position))
  {
    assert forall j :: 0 <= j < |rs| ==> rs[j].key == n.entries[j].key;
  }

  method AssignPositionsBelow(n: Node, next: nat) returns (r: Node, next': nat)
    requires WellFormed(n, false)
    ensures Renumbered(n, r, next, next')
    decreases n, 2
  {
    if n.Section? {
      r, next' := AssignTablePositions(n, next);
    } else if n.Sections? {
      var rs;
      rs, next' := AssignAllPositions(n.tables, next);
      r := Sections(rs);
      assert ValueOf(r) == ValueOf(n);
    } else {
      r, next' := n, next;
    }
  }

  method AssignAllPositions(ts: seq<Node>, next: nat) returns (rs: seq<Node>, next': nat)
    requires forall j :: 0 <= j < |ts| ==> ts[j].Section? && WellFormed(ts[j], false)
    ensures |rs| == |ts|
    ensures forall j :: 0 <= j < |ts| ==> rs[j].Section? && ValueOf(rs[j]) == ValueOf(ts[j]) && WellFormed(rs[j], false)
    ensures forall j :: 0 <= j < |ts| && Sectioned(ts[j]) ==> Sectioned(rs[j])
    ensures NumberedFrom(rs, next, next')
    decreases ts, 1
  {
    rs, next' := [], next;
    for i := 0 to |ts|
      invariant |rs| == i
      invariant forall j :: 0 <= j < i ==> rs[j].Section? && ValueOf(rs[j]) == ValueOf(ts[j]) && WellFormed(rs[j], false)
      invariant forall j :: 0 <= j < i && Sectioned(ts[j]) ==> Sectioned(rs[j])
      invariant NumberedFrom(rs, next, next')
    {
      ghost var was := next';
      var child;
      child, next' := AssignTablePositions(ts[i], next');
      AppendNumbered(rs, next, was, child, next');
      rs := rs + [child];
    }
  }

  lemma SameEntries(es: seq<Entry>, rs: seq<Entry>)
    requires |rs| == |es| && Distinct(es)
    requires forall i :: 0 <= i < |es| ==> rs[i].key == es[i].key
    requires forall i :: 0 <= i < |es| ==> ValueOf(rs[i].node) == ValueOf(es[i].node)
    ensures FieldsOf(rs) == FieldsOf(es)
  {
    forall k | k in KeySet(es) ensures k in KeySet(rs) {
      var i := KeyAt(es, k);
      assert rs[i].key == k;
    }
    forall i | 0 <= i < |rs| ensures rs[i].key in KeySet(es) && ValueOf(rs[i].node) == FieldsOf(es)[rs[i].key] {
      assert rs[i].key == es[i].key;
      FindOwnKey(es, i);
    }
    FieldsAre(rs, FieldsOf(es));
  }

  datatype PatchError = OldIsNotATable | NewIsNotATable

  /** An editable document: the root table of the concrete tree. */
  class TomlDocument {
    var document: Node

    ghost predicate Valid()
      reads this
    {
      document.Section? && WellFormed(document, false)
    }

    constructor (root: Node)
      requires root.Section? && WellFormed(root, false)
      ensures Valid() && document == root
    {
      document := root;
    }

    /** Apply only what differs between `before` and `after`. */
    method PatchValues(before: Toml, after: Toml) returns (outcome: Result<(), PatchError>)
      requires Valid()
      modifies this
      ensures Valid()
      ensures outcome.Ok? <==> before.TableV? && after.TableV?
      ensures outcome.Err? ==> document == old(document)
      ensures outcome.Ok? ==> PatchedNode(old(document), before, after, document, false)
      ensures outcome.Ok? ==> Carries(document, before, after)
      ensures outcome.Ok? && Agrees(old(document), before) ==> Agrees(document, after)
      ensures outcome.Ok? && ValueOf(old(document)) == before ==> ValueOf(document) == after
      ensures outcome.Ok? && before == after ==> document == old(document)
    {
      if !before.TableV? { return Err(OldIsNotATable); }
      if !after.TableV? { return Err(NewIsNotATable); }
      ghost var was := document;
      var rs := PatchTable(document.entries, before.fields, after.fields, false);
      document := Section(rs, document.decor, document.position);
      PatchKeepsWellFormed(was, before, after, document, false);
      PatchCarriesChanges(was, before, after, document, false);
      if Agrees(was, before) { PatchIsExact(was, before, after, document, false); }
      if ValueOf(was) == before { PatchOfEqualValue(was, before, after, document, false); }
      if before == after { EmptyDelta(was, before, document, false); }
      return Ok(());
    }
  }
}
