/** The package cache of pkghash.c: an open-addressed table whose slots point at the nodes
    of a doubly linked list. */
module PkgHash {
  import opened Text
  import opened Lists
  import opened KlpmList
  import opened Package

  type Entry = Node<Pkg>
  type Slot = Node?<Pkg>

  /** Possible table sizes. */
  const PRIMES: seq<nat> := [
    11, 13, 17, 19, 23, 29, 31, 37, 41, 43, 47, 53, 59, 61, 67, 71, 73, 79, 83, 89, 97, 103, 109, 113, 127,
    137, 139, 149, 157, 167, 179, 193, 199, 211, 227, 241, 257, 277, 293, 313, 337, 359, 383, 409, 439, 467,
    503, 541, 577, 619, 661, 709, 761, 823, 887, 953, 1031, 1109, 1193, 1289, 1381, 1493, 1613, 1741, 1879,
    2029, 2179, 2357, 2549, 2753, 2971, 3209, 3469, 3739, 4027, 4349, 4703, 5087, 5503, 5953, 6427, 6949,
    7517, 8123, 8783, 9497, 10273, 11113, 12011, 12983, 14033, 15173, 16411, 17749, 19183, 20753, 22447,
    24281, 26267, 28411, 30727, 33223, 35933, 38873, 42043, 45481, 49201, 53201, 57557, 62233, 67307, 72817,
    78779, 85229, 92203, 99733, 107897, 116731, 126271, 136607, 147793, 159871, 172933, 187091, 202409,
    218971, 236897, 256279, 277261, 299951, 324503, 351061, 379787, 410857, 444487, 480881, 520241, 562841,
    608903, 658753, 712697, 771049, 834181, 902483, 976369
  ]

  // ----- positions around the table

  function Wrap(x: nat, m: nat): (p: nat)
    requires x < 2 * m
    ensures p < m
  {
    if x >= m then x - m else x
  }

  /** How many steps of the probe lead from h to p. */
  function Dist(h: nat, p: nat, m: nat): (d: nat)
    requires h < m && p < m
    ensures d < m && Wrap(h + d, m) == p
  {
    if p >= h then p - h else p + m - h
  }

  function Home(name: string, m: nat): (h: nat)
    requires m > 0
    ensures h < m
  {
    Sdbm(name) % m
  }

  /** q lies on the probe from the home of the entry at p, before p. */
  ghost predicate OnWay(t: seq<Slot>, p: nat, q: nat)
    requires p < |t| && q < |t| && t[p] != null
  {
    var h := Home(t[p].data.name, |t|);
    Dist(h, q, |t|) < Dist(h, p, |t|)
  }

  /** No entry is cut off from its home slot, except perhaps by the slot hole. */
  ghost predicate Probed(t: seq<Slot>, hole: int) {
    forall p, q :: 0 <= p < |t| && 0 <= q < |t| && t[p] != null && q != hole && OnWay(t, p, q) ==> t[q] != null
  }

  /** The slots hold exactly the list's nodes, each once, at the positions slot tells. */
  ghost predicate Holds(t: seq<Slot>, nodes: seq<Entry>, slot: map<Entry, nat>) {
    && (forall n :: n in nodes ==> n in slot && slot[n] < |t| && t[slot[n]] == n)
    && (forall p :: 0 <= p < |t| && t[p] != null ==> t[p] in nodes && t[p] in slot && slot[t[p]] == p)
  }

  ghost predicate UniqueEntries(nodes: seq<Entry>) {
    forall i, j :: 0 <= i < j < |nodes| ==> nodes[i].data.name != nodes[j].data.name
  }

  lemma {:induction false} PigeonHole<X>(t: seq<X>, s: seq<X>)
    requires Distinct(t) && forall i :: 0 <= i < |t| ==> t[i] in s
    ensures |t| <= |s|
    decreases |s|
  {
    if t != [] {
      var n := |t| - 1;
      var k :| 0 <= k < |s| && s[k] == t[n];
      var rest := s[..k] + s[k + 1..];
      forall i | 0 <= i < n
        ensures t[..n][i] in rest
      {
        assert t[i] in s;
        var j :| 0 <= j < |s| && s[j] == t[i];
        assert rest[if j < k then j else j - 1] == t[i];
      }
      PigeonHole(t[..n], rest);
    }
  }

  /** More slots than entries: some slot is free. */
  lemma FreeSlot(t: seq<Slot>, nodes: seq<Entry>, slot: map<Entry, nat>)
    requires forall p :: 0 <= p < |t| && t[p] != null ==> t[p] in nodes && t[p] in slot && slot[t[p]] == p
    requires |nodes| < |t|
    ensures exists p :: 0 <= p < |t| && t[p] == null
  {
    if forall p :: 0 <= p < |t| ==> t[p] != null {
      forall p, q | 0 <= p < q < |t|
        ensures t[p] != t[q]
      {
        assert slot[t[p]] == p && slot[t[q]] == q;
      }
      PigeonHole(t, nodes);
    }
  }

  /** position is free and every slot from the home of name up to it is taken. */
  ghost predicate FirstFree(t: seq<Slot>, name: string, position: nat) {
    && position < |t| && t[position] == null
    && forall q :: 0 <= q < |t| && Dist(Home(name, |t|), q, |t|) < Dist(Home(name, |t|), position, |t|) ==> t[q] != null
  }

  /** get_hash_position: the first free slot from the home slot on. */
  method GetHashPosition(table: array<Slot>, name: string) returns (position: nat)
    requires exists p :: 0 <= p < table.Length && table[p] == null
    ensures FirstFree(table[..], name, position)
  {
    ghost var free :| 0 <= free < table.Length && table[free] == null;
    position := Sdbm(name) % table.Length;
    ghost var h, d := position, 0;
    while table[position] != null
      invariant 0 <= d <= Dist(h, free, table.Length) && position == Wrap(h + d, table.Length)
      invariant h == Home(name, table.Length) && Dist(h, position, table.Length) == d
      invariant forall q :: 0 <= q < table.Length && Dist(h, q, table.Length) < d ==> table[q] != null
      decreases table.Length - d
    {
      position := position + 1;
      if position >= table.Length {
        position := position - table.Length;
      }
      d := d + 1;
    }
  }

  // ----- removal

  /** The slot hole has just been emptied. The entries after it up to stop may be cut off by
      it, the slot after stop is free, and nothing else is wrong. */
  ghost predicate Hole(t: seq<Slot>, hole: nat, stop: nat) { Run(t, hole, stop) && Probed(t, hole) }

  /** The slots after the free slot hole are taken up to stop, and the next one is free. */
  ghost predicate Run(t: seq<Slot>, hole: nat, stop: nat) {
    && hole < |t| && stop < |t| && t[hole] == null
    && (forall q :: 0 <= q < |t| && 0 < Dist(hole, q, |t|) <= Dist(hole, stop, |t|) ==> t[q] != null)
    && t[Wrap(stop + 1, |t|)] == null && Wrap(stop + 1, |t|) != hole
  }

  /** An entry of the run after the hole rehashes to the hole exactly when the hole cuts it off. */
  lemma RehashesToHole(t: seq<Slot>, hole: nat, stop: nat, p: nat, position: nat)
    requires Hole(t, hole, stop) && p < |t| && 0 < Dist(hole, p, |t|) <= Dist(hole, stop, |t|)
    requires FirstFree(t, t[p].data.name, position)
    ensures position == hole <==> OnWay(t, p, hole)
  {
    assert t[Wrap(stop + 1, |t|)] == null;
    if OnWay(t, p, hole) { assert position == hole || OnWay(t, p, position); }
  }

  /** If the hole cuts off no entry of the run after it, it cuts off none at all. */
  lemma NoneCutOff(t: seq<Slot>, hole: nat, stop: nat)
    requires Hole(t, hole, stop)
    requires forall p :: 0 <= p < |t| && 0 < Dist(hole, p, |t|) <= Dist(hole, stop, |t|) ==> !OnWay(t, p, hole)
    ensures Probed(t, -1)
  {
    forall p | 0 <= p < |t| && t[p] != null
      ensures !OnWay(t, p, hole)
    {
      if Dist(hole, p, |t|) > Dist(hole, stop, |t|) {
        PassesNext(Home(t[p].data.name, |t|), hole, stop, p, |t|);
      }
    }
  }

  /** A probe through the hole to an entry beyond the run passes the slot after the run. */
  lemma PassesNext(h: nat, hole: nat, stop: nat, p: nat, m: nat)
    requires h < m && hole < m && stop < m && p < m && Dist(hole, p, m) > Dist(hole, stop, m)
    requires p != Wrap(stop + 1, m) && Wrap(stop + 1, m) != hole
    ensures Dist(h, hole, m) < Dist(h, p, m) ==> Dist(h, Wrap(stop + 1, m), m) < Dist(h, p, m)
  {
  }

  /** Moving a cut-off entry into the hole leaves a hole nearer to stop. */
  lemma MovesHole(t: seq<Slot>, hole: nat, stop: nat, p: nat)
    requires Hole(t, hole, stop) && p < |t| && 0 < Dist(hole, p, |t|) <= Dist(hole, stop, |t|) && OnWay(t, p, hole)
    ensures Hole(t[hole := t[p]][p := null], p, stop)
    ensures Dist(p, stop, |t|) < Dist(hole, stop, |t|)
  {
    var t' := t[hole := t[p]][p := null];
    forall x, q | 0 <= x < |t| && 0 <= q < |t| && t'[x] != null && q != p && OnWay(t', x, q)
      ensures t'[q] != null
    {
      if x == hole {
        assert OnWay(t, p, q);
      } else {
        assert OnWay(t, x, q);
      }
    }
  }

  lemma MoveHolds(t: seq<Slot>, nodes: seq<Entry>, slot: map<Entry, nat>, p: nat, q: nat)
    requires Holds(t, nodes, slot) && p < |t| && q < |t| && t[p] != null && t[q] == null
    ensures Holds(t[q := t[p]][p := null], nodes, slot[t[p] := q])
  {
  }

  /** move_one_entry: fills the hole at start with an entry of the run that it cuts off. */
  method MoveOneEntry(table: array<Slot>, start: nat, stop: nat, ghost nodes: seq<Entry>, ghost slot: map<Entry, nat>)
    returns (end: nat, ghost slot': map<Entry, nat>)
    requires Hole(table[..], start, stop) && Holds(table[..], nodes, slot)
    modifies table
    ensures end < table.Length && Holds(table[..], nodes, slot')
    ensures end == start ==> Probed(table[..], -1)
    ensures end != start ==> Hole(table[..], end, stop) && Dist(end, stop, table.Length) < Dist(start, stop, table.Length)
  {
    end := stop;
    slot' := slot;
    ghost var t := table[..];
    while end != start
      invariant end < table.Length && table[..] == t
      invariant Dist(start, end, |t|) <= Dist(start, stop, |t|)
      invariant Scanned(t, start, end, stop)
      decreases Dist(start, end, |t|)
    {
      var i := table[end];
      assert i == t[end] && table[start] == t[start];
      var newPosition := GetHashPosition(table, i.data.name);
      RehashesToHole(t, start, stop, end, newPosition);
      if newPosition == start {
        MovesHole(t, start, stop, end);
        MoveHolds(t, nodes, slot, end, start);
        table[start] := i;
        table[end] := null;
        assert table[..] == t[start := t[end]][end := null];
        slot' := slot[i := start];
        return;
      }
      ScannedOneMore(t, start, end, stop);
      end := if end == 0 then table.Length - 1 else end - 1;
    }
    NoneCutOff(t, start, stop);
  }

  /** The backward scan from stop has passed every entry after end and found none cut off. */
  ghost predicate Scanned(t: seq<Slot>, start: nat, end: nat, stop: nat)
    requires Hole(t, start, stop) && end < |t|
  {
    forall p :: 0 <= p < |t| && Dist(start, end, |t|) < Dist(start, p, |t|) <= Dist(start, stop, |t|)
      ==> !OnWay(t, p, start)
  }

  lemma ScannedOneMore(t: seq<Slot>, start: nat, end: nat, stop: nat)
    requires Hole(t, start, stop) && end < |t| && end != start && Dist(start, end, |t|) <= Dist(start, stop, |t|)
    requires Scanned(t, start, end, stop) && !OnWay(t, end, start)
    ensures Scanned(t, start, if end == 0 then |t| - 1 else end - 1, stop)
  {
  }

  // ----- the cache

  /** How many buckets a table for that many entries should exceed. */
  function Wanted(size: nat): nat { size * 100 / 58 + 1 }

  ghost predicate FirstAbove(buckets: nat, wanted: nat) {
    exists i :: 0 <= i < |PRIMES| && PRIMES[i] == buckets > wanted && forall j :: 0 <= j < i ==> PRIMES[j] <= wanted
  }

  ghost predicate NoneAbove(wanted: nat) { forall b :: b in PRIMES ==> b <= wanted }

  /** The first table size above the size asked for at the initial load, if there is one. */
  method ChooseBuckets(size: nat) returns (buckets: Option<nat>)
    ensures buckets.Some? ==> FirstAbove(buckets.value, Wanted(size))
    ensures buckets.None? <==> NoneAbove(Wanted(size))
  {
    var wanted := Wanted(size);
    for i := 0 to |PRIMES|
      invariant forall j :: 0 <= j < i ==> PRIMES[j] <= wanted
    {
      if PRIMES[i] > wanted {
        assert PRIMES[i] in PRIMES;
        return Some(PRIMES[i]);
      }
    }
    return None;
  }

  /** The size rehash asks for. */
  function GrownSize(buckets: nat): (size: nat)
    ensures buckets > 1 ==> size > buckets
  {
    if buckets < 500 then buckets * 2
    else if buckets < 2000 then buckets * 3 / 2
    else if buckets < 5000 then buckets * 4 / 3
    else buckets + 1
  }

  /** A table of that size cannot grow. */
  ghost predicate Largest(buckets: nat) { NoneAbove(Wanted(GrownSize(buckets))) }

  /** The table size rehash grows to leaves room for one more entry than the old limit. */
  method GrownBuckets(buckets: nat) returns (grown: Option<nat>)
    requires buckets >= 2
    ensures grown.Some? ==> FirstAbove(grown.value, Wanted(GrownSize(buckets)))
    ensures grown.Some? ==> buckets * 68 / 100 < grown.value * 68 / 100 < grown.value
    ensures grown.None? <==> Largest(buckets)
  {
    hide PRIMES;
    grown := ChooseBuckets(GrownSize(buckets));
  }

  /** As many entries as any table holds before one can be full that cannot grow. */
  const ROOM: nat := 385079

  lemma LargestHasRoom(buckets: nat)
    requires Largest(buckets)
    ensures buckets * 68 / 100 >= ROOM
  {
    assert PRIMES[|PRIMES| - 1] == 976369;
    assert 976369 in PRIMES;
  }

  /** What the list says about names: the plain map the cache stands for. */
  ghost predicate Describes(view: map<string, Pkg>, nodes: seq<Entry>) {
    && UniqueEntries(nodes)
    && (forall i :: 0 <= i < |nodes| ==> nodes[i].data.name in view && view[nodes[i].data.name] == nodes[i].data)
    && (forall name :: name in view ==> exists i :: 0 <= i < |nodes| && nodes[i].data.name == name)
  }

  lemma AddedFirstFree(t: seq<Slot>, node: Entry, position: nat)
    requires Probed(t, -1) && FirstFree(t, node.data.name, position)
    ensures Probed(t[position := node], -1)
  {
    var t' := t[position := node];
    forall p, q | 0 <= p < |t| && 0 <= q < |t| && t'[p] != null && OnWay(t', p, q)
      ensures t'[q] != null
    {
      if p != position { assert OnWay(t, p, q); }
    }
  }

  /** Copies every entry of the old table into a larger empty one. */
  method Rebin(old_: array<Slot>, table: array<Slot>, ghost nodes: seq<Entry>, ghost slot: map<Entry, nat>)
    returns (ghost slot': map<Entry, nat>)
    requires old_ != table && Holds(old_[..], nodes, slot) && |nodes| < table.Length
    requires forall p :: 0 <= p < table.Length ==> table[p] == null
    modifies table
    ensures Holds(table[..], nodes, slot') && Probed(table[..], -1)
  {
    slot' := map[];
    for i := 0 to old_.Length
      invariant Probed(table[..], -1)
      invariant Copied(old_[..], i, table[..], nodes, slot')
    {
      if old_[i] != null {
        var node := old_[i];
        FreeSlot(table[..], nodes, slot');
        assert exists p :: 0 <= p < table.Length && table[p] == null by {
          var p :| 0 <= p < table.Length && table[..][p] == null;
        }
        var position := GetHashPosition(table, node.data.name);
        AddedFirstFree(table[..], node, position);
        CopyOne(old_[..], i, table[..], nodes, slot, slot', position);
        ghost var t := table[..];
        table[position] := node;
        assert table[..] == t[position := node];
        slot' := slot'[node := position];
      }
    }
    forall n | n in nodes
      ensures n in slot' && slot'[n] < table.Length && table[slot'[n]] == n
    {
      assert old_[..][slot[n]] == n;
    }
  }

  /** The first i slots of the old table have been copied, each to where slot tells. */
  ghost predicate Copied(src: seq<Slot>, i: nat, t: seq<Slot>, nodes: seq<Entry>, slot: map<Entry, nat>) {
    && i <= |src|
    && (forall p :: 0 <= p < i && src[p] != null ==> src[p] in slot && slot[src[p]] < |t| && t[slot[src[p]]] == src[p])
    && (forall p :: 0 <= p < |t| && t[p] != null ==> t[p] in nodes && t[p] in slot && slot[t[p]] == p)
    && (forall p :: 0 <= p < |t| && t[p] != null ==> exists j :: 0 <= j < i && src[j] == t[p])
  }

  lemma CopyOne(src: seq<Slot>, i: nat, t: seq<Slot>, nodes: seq<Entry>, from: map<Entry, nat>, slot: map<Entry, nat>,
                position: nat)
    requires Holds(src, nodes, from) && Copied(src, i, t, nodes, slot)
    requires i < |src| && src[i] != null && position < |t| && t[position] == null
    ensures Copied(src, i + 1, t[position := src[i]], nodes, slot[src[i] := position])
  {
    var t' := t[position := src[i]];
    forall p | 0 <= p < |t| && t[p] != null
      ensures t[p] != src[i]
    {
      var j :| 0 <= j < i && src[j] == t[p];
      assert from[src[j]] == j && from[src[i]] == i;
    }
    forall p | 0 <= p < |t'| && t'[p] != null
      ensures exists j :: 0 <= j < i + 1 && src[j] == t'[p]
    {
      if p == position {
        assert src[i] == t'[p];
      } else {
        var j :| 0 <= j < i && src[j] == t[p];
      }
    }
    forall p | 0 <= p < i && src[p] != null
      ensures src[p] != src[i]
    {
      assert from[src[p]] == p && from[src[i]] == i;
    }
  }

  lemma InsertHolds(t: seq<Slot>, nodes: seq<Entry>, slot: map<Entry, nat>, node: Entry, position: nat, nodes': seq<Entry>)
    requires Holds(t, nodes, slot) && position < |t| && t[position] == null && node !in nodes
    requires multiset(nodes') == multiset(nodes + [node])
    ensures Holds(t[position := node], nodes', slot[node := position])
  {
    forall n
      ensures n in nodes' <==> n in nodes || n == node
    {
      assert n in nodes' <==> n in multiset(nodes');
      assert n in nodes + [node] <==> n in multiset(nodes + [node]);
    }
  }

  lemma InsertDescribes(view: map<string, Pkg>, nodes: seq<Entry>, node: Entry, nodes': seq<Entry>)
    requires Describes(view, nodes) && node.data.name !in view && Distinct(nodes')
    requires multiset(nodes') == multiset(nodes + [node])
    ensures Describes(view[node.data.name := node.data], nodes')
  {
    forall i | 0 <= i < |nodes'|
      ensures nodes'[i] in nodes || nodes'[i] == node
    {
      assert nodes'[i] in multiset(nodes');
      assert nodes'[i] in nodes + [node];
    }
    forall i, j | 0 <= i < j < |nodes'|
      ensures nodes'[i].data.name != nodes'[j].data.name
    {
      if nodes'[i] in nodes && nodes'[j] in nodes {
        var a :| 0 <= a < |nodes| && nodes[a] == nodes'[i];
        var b :| 0 <= b < |nodes| && nodes[b] == nodes'[j];
        assert a != b;
      }
    }
    var view' := view[node.data.name := node.data];
    forall name | name in view'
      ensures exists i :: 0 <= i < |nodes'| && nodes'[i].data.name == name
    {
      var n: Entry;
      if name == node.data.name { n := node; }
      else {
        var k :| 0 <= k < |nodes| && nodes[k].data.name == name;
        n := nodes[k];
      }
      assert n in nodes + [node];
      assert n in multiset(nodes');
      assert n in nodes';
    }
  }

  lemma IndexOf(t: seq<Slot>, nodes: seq<Entry>, slot: map<Entry, nat>, position: nat) returns (k: nat)
    requires Holds(t, nodes, slot) && position < |t| && t[position] != null
    ensures k < |nodes| && nodes[k] == t[position]
  {
    k :| 0 <= k < |nodes| && nodes[k] == t[position];
  }

  lemma RemoveHolds(t: seq<Slot>, nodes: seq<Entry>, slot: map<Entry, nat>, view: map<string, Pkg>, position: nat, k: nat)
    requires Holds(t, nodes, slot) && Describes(view, nodes) && k < |nodes| && position < |t| && t[position] == nodes[k]
    ensures Holds(t[position := null], nodes[..k] + nodes[k + 1..], slot)
  {
    var rest := nodes[..k] + nodes[k + 1..];
    forall n
      ensures n in rest <==> n in nodes && n != nodes[k]
    {
      if n in nodes && n != nodes[k] {
        var i :| 0 <= i < |nodes| && nodes[i] == n;
        assert rest[if i < k then i else i - 1] == n;
      }
    }
  }

  lemma RemoveDescribes(view: map<string, Pkg>, nodes: seq<Entry>, k: nat)
    requires Describes(view, nodes) && k < |nodes|
    ensures Describes(view - {nodes[k].data.name}, nodes[..k] + nodes[k + 1..])
  {
    var rest := nodes[..k] + nodes[k + 1..];
    forall name | name in view - {nodes[k].data.name}
      ensures exists i :: 0 <= i < |rest| && rest[i].data.name == name
    {
      var i :| 0 <= i < |nodes| && nodes[i].data.name == name;
      assert rest[if i < k then i else i - 1] == nodes[i];
    }
  }

  /** The probe from the home of name stops at position: a free slot or the entry of that
      name, with other entries on every slot before. */
  ghost predicate ProbeEnds(t: seq<Slot>, name: string, position: nat) {
    && position < |t|
    && (t[position] != null ==> t[position].data.name == name)
    && forall q :: 0 <= q < |t| && Dist(Home(name, |t|), q, |t|) < Dist(Home(name, |t|), position, |t|)
          ==> t[q] != null && t[q].data.name != name
  }

  /** Where there is an entry of the name, the probe does not stop at a free slot. */
  lemma EntryStops(t: seq<Slot>, name: string, position: nat, p: nat)
    requires Probed(t, -1) && ProbeEnds(t, name, position) && p < |t| && t[p] != null && t[p].data.name == name
    ensures t[position] != null
  {
    assert Dist(Home(name, |t|), position, |t|) < Dist(Home(name, |t|), p, |t|) <==> OnWay(t, p, position);
  }

  /** The probing loop of find and remove. */
  method Probe(table: array<Slot>, name: string) returns (position: nat)
    requires exists p :: 0 <= p < table.Length && table[p] == null
    ensures ProbeEnds(table[..], name, position)
  {
    ghost var free :| 0 <= free < table.Length && table[free] == null;
    position := Sdbm(name) % table.Length;
    ghost var h, d := position, 0;
    while table[position] != null && table[position].data.name != name
      invariant 0 <= d <= Dist(h, free, table.Length) && position == Wrap(h + d, table.Length)
      invariant h == Home(name, table.Length) && Dist(h, position, table.Length) == d
      invariant forall q :: 0 <= q < table.Length && Dist(h, q, table.Length) < d
                  ==> table[q] != null && table[q].data.name != name
      decreases table.Length - d
    {
      position := position + 1;
      if position >= table.Length {
        position := position - table.Length;
      }
      d := d + 1;
    }
  }

  /** Emptying one slot of a good table leaves a hole. */
  lemma EmptiedProbed(t: seq<Slot>, position: nat)
    requires Probed(t, -1) && position < |t|
    ensures Probed(t[position := null], position)
  {
    var t' := t[position := null];
    forall p, q | 0 <= p < |t| && 0 <= q < |t| && t'[p] != null && q != position && OnWay(t', p, q)
      ensures t'[q] != null
    {
      assert OnWay(t, p, q);
    }
  }

  /** The last slot of the run of entries that follows the hole. */
  method FindStop(table: array<Slot>, position: nat) returns (stop: nat)
    requires position < table.Length && table[position] == null
    requires exists p :: 0 <= p < table.Length && table[p] == null && p != position
    ensures Run(table[..], position, stop)
  {
    ghost var free :| 0 <= free < table.Length && table[free] == null && free != position;
    ghost var m, d := table.Length, 1;
    stop := position + 1;
    if stop >= table.Length {
      stop := stop - table.Length;
    }
    while table[stop] != null && stop != position
      invariant stop < m && 0 < d <= Dist(position, free, m) && Dist(position, stop, m) == d
      invariant forall q :: 0 <= q < m && 0 < Dist(position, q, m) < d ==> table[q] != null
      decreases m - d
    {
      stop := stop + 1;
      if stop >= table.Length {
        stop := stop - table.Length;
      }
      d := d + 1;
    }
    stop := if stop == 0 then table.Length - 1 else stop - 1;
    assert table[Wrap(stop + 1, m)] == null;
  }

  /** Plugs the hole and the holes this opens, until none cuts an entry off. */
  method FillHoles(table: array<Slot>, start: nat, stop: nat, ghost nodes: seq<Entry>, ghost slot: map<Entry, nat>)
    returns (ghost slot': map<Entry, nat>)
    requires Hole(table[..], start, stop) && Holds(table[..], nodes, slot)
    modifies table
    ensures Holds(table[..], nodes, slot') && Probed(table[..], -1)
  {
    slot' := slot;
    var position: nat := start;
    var prev: nat;
    prev, slot' := MoveOneEntry(table, position, stop, nodes, slot');
    while prev != position
      invariant position < table.Length && prev < table.Length && Holds(table[..], nodes, slot')
      invariant prev == position ==> Probed(table[..], -1)
      invariant prev != position ==> Hole(table[..], prev, stop)
      decreases if prev != position then Dist(prev, stop, table.Length) + 1 else 0
    {
      position := prev;
      prev, slot' := MoveOneEntry(table, position, stop, nodes, slot');
    }
  }

  /** Where the list puts a new node: last, or merged in by name. */
  ghost function Placed(nodes: seq<Entry>, node: Entry, sorted: bool): seq<Entry> {
    if sorted then Merge(nodes, [node], NodeLe(PkgCmp)) else nodes + [node]
  }

  lemma PlacedPermutes(nodes: seq<Entry>, node: Entry, sorted: bool)
    ensures multiset(Placed(nodes, node, sorted)) == multiset(nodes + [node])
    ensures |Placed(nodes, node, sorted)| == |nodes| + 1
    ensures forall i :: 0 <= i <= |nodes| ==> Placed(nodes, node, sorted)[i] in nodes || Placed(nodes, node, sorted)[i] == node
  {
    MergePermutes(nodes, [node], NodeLe(PkgCmp));
    var placed, appended := Placed(nodes, node, sorted), nodes + [node];
    assert |placed| == |multiset(placed)| && |appended| == |multiset(appended)|;
    forall i | 0 <= i < |placed|
      ensures placed[i] in nodes || placed[i] == node
    {
      assert placed[i] in multiset(placed);
      assert placed[i] in appended;
    }
  }

  /** The nodes come in the order of their names. */
  ghost predicate ByName(nodes: seq<Entry>) {
    forall i, j :: 0 <= i < j < |nodes| ==> StrCmp(nodes[i].data.name, nodes[j].data.name) <= 0
  }

  /** A plain add puts the node last; a sorted one keeps a list in the order of names so. */
  ghost predicate Joins(before: seq<Entry>, node: Entry, after: seq<Entry>, sorted: bool) {
    && (!sorted ==> after == before + [node])
    && multiset(after) == multiset(before + [node])
    && (sorted && ByName(before) ==> ByName(after))
  }

  lemma PlacedJoins(nodes: seq<Entry>, node: Entry, sorted: bool)
    ensures Joins(nodes, node, Placed(nodes, node, sorted), sorted)
  {
    hide StrCmp;
    PlacedPermutes(nodes, node, sorted);
    if sorted && ByName(nodes) {
      var le := NodeLe(PkgCmp);
      var u := set n | n in nodes + [node];
      NamesTotal(u);
      forall i, j | 0 <= i < j < |nodes| ensures le(nodes[i], nodes[j]) { NameLe(nodes[i], nodes[j]); }
      MergeSorted(nodes, [node], le, u);
      var after := Placed(nodes, node, sorted);
      forall i, j | 0 <= i < j < |after| ensures StrCmp(after[i].data.name, after[j].data.name) <= 0 {
        NameLe(after[i], after[j]);
      }
    }
  }

  lemma NameLe(x: Entry, y: Entry)
    ensures NodeLe(PkgCmp)(x, y) <==> StrCmp(x.data.name, y.data.name) <= 0
  {
    assert PkgCmp(x.data, y.data) == StrCmp(x.data.name, y.data.name);
  }

  lemma NamesTotal(u: set<Entry>)
    ensures TotalPreorder(u, NodeLe(PkgCmp))
  {
    hide StrCmp;
    var le := NodeLe(PkgCmp);
    forall x, y | x in u && y in u ensures le(x, y) || le(y, x) {
      StrCmpAntisymmetric(x.data.name, y.data.name);
      NameLe(x, y);
      NameLe(y, x);
    }
    forall x, y, z | x in u && y in u && z in u && le(x, y) && le(y, z) ensures le(x, z) {
      NameLe(x, y);
      NameLe(y, z);
      NameLe(x, z);
      StrCmpTransitive(x.data.name, y.data.name, z.data.name);
    }
  }

  method Link(list: Slot, node: Entry, sorted: bool, ghost nodes: seq<Entry>) returns (head: Slot)
    requires IsList(list, nodes) && node !in nodes && node.prev == node && node.next == null
    modifies nodes, node
    ensures IsList(head, Placed(nodes, node, sorted))
  {
    if !sorted {
      head := Join(list, node, nodes, [node]);
    } else {
      head := MMerge(list, node, PkgCmp, nodes, [node]);
    }
  }

  class Cache {
    var table: array<Slot>
    var limit: nat
    var entries: nat
    var list: Slot
    ghost var nodes: seq<Entry>        // the nodes of list
    ghost var slot: map<Entry, nat>    // where each node is in the table
    ghost var view: map<string, Pkg>   // the map from names to packages that the cache stands for

    ghost predicate Valid()
      reads this, table, nodes
    {
      && table.Length >= 2 && limit == table.Length * 68 / 100
      && entries == |nodes| <= limit
      && IsList(list, nodes)
      && Holds(table[..], nodes, slot)
      && Probed(table[..], -1)
      && Describes(view, nodes)
    }

    constructor Create(buckets: nat)
      requires buckets >= 2
      ensures Valid() && fresh(table) && table.Length == buckets
      ensures nodes == [] && view == map[]
    {
      table := new Slot[buckets](_ => null);
      limit := buckets * 68 / 100;
      entries := 0;
      list := null;
      nodes, slot, view := [], map[], map[];
    }

    lemma HasFreeSlot()
      requires Valid()
      ensures exists p :: 0 <= p < table.Length && table[p] == null
    {
      FreeSlot(table[..], nodes, slot);
      var p :| 0 <= p < table.Length && table[..][p] == null;
      assert table[p] == null;
    }

    lemma NotPresent(name: string, position: nat)
      requires Valid() && ProbeEnds(table[..], name, position) && table[position] == null
      ensures name !in view
    {
      if name in view {
        var i :| 0 <= i < |nodes| && nodes[i].data.name == name;
        EntryStops(table[..], name, position, slot[nodes[i]]);
        assert false;
      }
    }

    /** Probes to the entry of that name, or to a free slot if there is none. */
    method Lookup(name: string) returns (position: nat)
      requires Valid()
      ensures position < table.Length
      ensures table[position] == null ==> name !in view
      ensures table[position] != null ==> table[position].data.name == name
      ensures table[position] != null ==> name in view && view[name] == table[position].data
    {
      HasFreeSlot();
      position := Probe(table, name);
      if table[position] == null {
        NotPresent(name, position);
      } else {
        assert table[..][position] in nodes;
      }
    }

    /** _klpm_pkghash_find agrees with the plain map. */
    method Find(name: string) returns (pkg: Option<Pkg>)
      requires Valid()
      ensures pkg == if name in view then Some(view[name]) else None
    {
      var position := Lookup(name);
      var node := table[position];
      return if node == null then None else Some(node.data);
    }

    /** rehash: moves every entry to a larger table, or gives up when there is none. */
    method Rehash() returns (ok: bool)
      requires Valid()
      modifies `table, `limit, `slot
      ensures Valid()
      ensures ok ==> fresh(table) && entries < limit
      ensures !ok ==> table == old(table) && limit == old(limit) && slot == old(slot)
      ensures !ok <==> Largest(old(table.Length))
    {
      hide PRIMES, Largest, Probed, Holds, Describes, IsList, UniqueEntries;
      var buckets := GrownBuckets(table.Length);
      if buckets.None? {
        return false;
      }
      var bigger := new Slot[buckets.value](_ => null);
      slot := Rebin(table, bigger, nodes, slot);
      limit := bigger.Length * 68 / 100;
      table := bigger;
      ok := true;
    }

    /** pkghash_add_pkg: fails exactly when the table is full and cannot grow. */
    method Add(pkg: Pkg, sorted: bool) returns (ok: bool)
      requires Valid() && pkg.name !in view
      modifies this, table, nodes
      ensures Valid()
      ensures fresh(table) || table == old(table)
      ensures !ok ==> view == old(view) && nodes == old(nodes)
      ensures !ok <==> old(entries >= limit && Largest(table.Length))
      ensures ok ==> view == old(view)[pkg.name := pkg]
      ensures ok ==> exists node: Entry :: fresh(node) && node.data == pkg &&
                       nodes == Placed(old(nodes), node, sorted) && Joins(old(nodes), node, nodes, sorted)
      ensures forall i :: 0 <= i < |nodes| ==> nodes[i] in old(nodes) || fresh(nodes[i])
    {
      hide PRIMES, Largest, Probed, Holds, Describes, IsList, UniqueEntries, Placed, Joins;
      if entries >= limit {
        ok := Rehash();
        if !ok {
          return;
        }
      }
      HasFreeSlot();
      var position := GetHashPosition(table, pkg.name);
      var node := new Node(pkg);
      ok := true;
      AddNode(node, position, sorted);
      PlacedPermutes(old(nodes), node, sorted);
      PlacedJoins(old(nodes), node, sorted);
    }

    /** Links a new node into the table and the list. */
    method AddNode(node: Entry, position: nat, sorted: bool)
      requires Valid() && entries < limit && node !in nodes && node.data.name !in view
      requires node.prev == node && node.next == null && FirstFree(table[..], node.data.name, position)
      modifies this, table, nodes, node
      ensures Valid() && table == old(table)
      ensures view == old(view)[node.data.name := node.data]
      ensures nodes == Placed(old(nodes), node, sorted)
    {
      hide Probed, Holds, Describes, IsList, Placed, UniqueEntries;
      ghost var t, nodes' := table[..], Placed(nodes, node, sorted);
      PlacedPermutes(nodes, node, sorted);
      AddedFirstFree(t, node, position);
      InsertHolds(t, nodes, slot, node, position, nodes');
      list := Link(list, node, sorted, nodes);
      InsertDescribes(view, nodes, node, nodes');
      table[position] := node;
      assert table[..] == t[position := node];
      entries := entries + 1;
      nodes, slot, view := nodes', slot[node := position], view[node.data.name := node.data];
    }

    /** _klpm_pkghash_remove: takes out the entry of that name, if there is one. */
    method Remove(name: string) returns (removed: Option<Pkg>)
      requires Valid()
      modifies this, table, nodes
      ensures Valid() && table == old(table)
      ensures removed == if name in old(view) then Some(old(view)[name]) else None
      ensures view == old(view) - {name}
      ensures removed.None? ==> nodes == old(nodes)
      ensures removed.Some? ==> exists k :: 0 <= k < |old(nodes)| && old(nodes)[k].data.name == name &&
                                  nodes == old(nodes)[..k] + old(nodes)[k + 1..]
      ensures forall i :: 0 <= i < |nodes| ==> nodes[i] in old(nodes)
    {
      hide Probed, Holds, Describes, IsList, UniqueEntries;
      var position := Lookup(name);
      var i := table[position];
      if i == null {
        return None;
      }
      removed := Some(i.data);
      RemoveAt(position, i);
    }

    /** Valid but for the slot at position, which has just been emptied. */
    ghost predicate Holed(position: nat)
      reads this, table, nodes
    {
      && table.Length >= 2 && limit == table.Length * 68 / 100
      && entries == |nodes| <= limit
      && IsList(list, nodes)
      && Holds(table[..], nodes, slot)
      && Describes(view, nodes)
      && position < table.Length && table[position] == null && Probed(table[..], position)
      && exists p :: 0 <= p < table.Length && table[p] == null && p != position
    }

    method RemoveAt(position: nat, i: Entry)
      requires Valid() && position < table.Length && table[position] == i
      modifies this, table, nodes
      ensures Valid() && table == old(table)
      ensures view == old(view) - {i.data.name}
      ensures exists k :: 0 <= k < |old(nodes)| && old(nodes)[k] == i &&
                nodes == old(nodes)[..k] + old(nodes)[k + 1..]
    {
      hide Probed, Holds, Describes, IsList, UniqueEntries, Run;
      Unlink(position, i);
      var stop := FindStop(table, position);
      slot := FillHoles(table, position, stop, nodes, slot);
    }

    method Unlink(position: nat, i: Entry)
      requires Valid() && position < table.Length && table[position] == i
      modifies this, table, nodes
      ensures Holed(position) && table == old(table)
      ensures view == old(view) - {i.data.name}
      ensures exists k :: 0 <= k < |old(nodes)| && old(nodes)[k] == i &&
                nodes == old(nodes)[..k] + old(nodes)[k + 1..]
    {
      hide Probed, Holds, Describes, IsList, UniqueEntries;
      ghost var t := table[..];
      ghost var k := IndexOf(t, nodes, slot, position);
      HasFreeSlot();
      ghost var free :| 0 <= free < table.Length && t[free] == null;
      EmptiedProbed(t, position);
      RemoveHolds(t, nodes, slot, view, position, k);
      RemoveDescribes(view, nodes, k);
      list := RemoveItem(list, i, nodes, k);
      table[position] := null;
      assert table[..] == t[position := null];
      entries := entries - 1;
      nodes, view := nodes[..k] + nodes[k + 1..], view - {i.data.name};
      assert table[free] == null && free != position;
    }

    /** A full table that cannot grow stands for a large map. */
    lemma FullIsLarge()
      requires Valid() && entries >= limit && Largest(table.Length)
      ensures |view| >= ROOM
    {
      hide PRIMES, Largest, Probed, Holds, IsList;
      LargestHasRoom(table.Length);
      SizeOfView(view, nodes);
    }

    /** Any sequence of adds, sorted adds and removals does what the plain map does: an add takes
        effect exactly when its name is new, as long as there is room. */
    method RunAll(ops: seq<Op>) returns (done: seq<bool>)
      requires Valid()
      modifies this, table, nodes
      ensures Valid() && |done| == |ops| && view == Replay(old(view), ops, done)
      ensures forall i :: 0 <= i < |ops| ==> Outcome(Replay(old(view), ops[..i], done[..i]), ops[i], done[i])
    {
      hide PRIMES, Largest, Probed, Holds, Describes, IsList, UniqueEntries, Replay;
      done := [];
      ReplayNone(view);
      for i := 0 to |ops|
        invariant Valid() && |done| == i && view == Replay(old(view), ops[..i], done)
        invariant fresh(table) || table == old(table)
        invariant forall k :: 0 <= k < |nodes| ==> nodes[k] in old(nodes) || fresh(nodes[k])
        invariant forall k :: 0 <= k < i ==> Outcome(Replay(old(view), ops[..k], done[..k]), ops[k], done[k])
      {
        ghost var before := view;
        var ok := RunOne(ops[i]);
        ReplayOne(old(view), ops, done, i, ok);
        forall k | 0 <= k < i + 1
          ensures Outcome(Replay(old(view), ops[..k], (done + [ok])[..k]), ops[k], (done + [ok])[k])
        {
          assert (done + [ok])[..k] == if k < i then done[..k] else done;
        }
        done := done + [ok];
      }
      assert ops[..|ops|] == ops;
    }

    method RunOne(op: Op) returns (ok: bool)
      requires Valid()
      modifies this, table, nodes
      ensures Valid() && view == Step(old(view), op, ok) && Outcome(old(view), op, ok)
      ensures fresh(table) || table == old(table)
      ensures forall k :: 0 <= k < |nodes| ==> nodes[k] in old(nodes) || fresh(nodes[k])
    {
      hide PRIMES, Largest, Probed, Holds, Describes, IsList, UniqueEntries;
      ok := true;
      match op {
        case AddOp(pkg, sorted) =>
          var present := Find(pkg.name);
          ok := false;
          if present.None? {
            if entries >= limit && Largest(table.Length) { FullIsLarge(); }
            ok := Add(pkg, sorted);
          }
        case RemoveOp(name) =>
          var removed := Remove(name);
      }
    }
  }

  lemma {:induction false} SizeOfView(view: map<string, Pkg>, nodes: seq<Entry>)
    requires Describes(view, nodes)
    ensures |view| == |nodes|
    decreases |nodes|
  {
    if nodes == [] {
      assert view == map[];
    } else {
      var k := |nodes| - 1;
      var rest := view - {nodes[k].data.name};
      RemoveDescribes(view, nodes, k);
      assert nodes[..k] + nodes[k + 1..] == nodes[..k];
      SizeOfView(rest, nodes[..k]);
      assert rest.Keys == view.Keys - {nodes[k].data.name};
    }
  }

  /** What becomes of one operation on the plain map. */
  ghost predicate Outcome(before: map<string, Pkg>, op: Op, done: bool) {
    match op
    case AddOp(pkg, _) => if done then pkg.name !in before else pkg.name in before || |before| >= ROOM
    case RemoveOp(_) => done
  }

  datatype Op = AddOp(pkg: Pkg, sorted: bool) | RemoveOp(name: string)

  function Step(view: map<string, Pkg>, op: Op, done: bool): map<string, Pkg> {
    match op
    case AddOp(pkg, _) => if done then view[pkg.name := pkg] else view
    case RemoveOp(name) => view - {name}
  }

  /** The plain map after the operations, of which those flagged took effect. */
  function Replay(view: map<string, Pkg>, ops: seq<Op>, done: seq<bool>): map<string, Pkg>
    requires |ops| == |done|
  {
    if ops == [] then view
    else Step(Replay(view, ops[..|ops| - 1], done[..|ops| - 1]), ops[|ops| - 1], done[|ops| - 1])
  }

  lemma ReplayNone(view: map<string, Pkg>)
    ensures Replay(view, [], []) == view
  {
  }

  lemma ReplayOne(view: map<string, Pkg>, ops: seq<Op>, done: seq<bool>, i: nat, ok: bool)
    requires i == |done| < |ops|
    ensures Replay(view, ops[..i + 1], done + [ok]) == Step(Replay(view, ops[..i], done), ops[i], ok)
  {
    assert ops[..i + 1][..i] == ops[..i] && (done + [ok])[..i] == done;
  }
}
