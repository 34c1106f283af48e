/**
 * The board lister (`handler` of the get_athletics function): the catalog of
 * athletics flattened into a list of names, and one `{id, name}` payload per
 * name sharing the pass's id.
 */
module BoardLister {
  import opened Results
  import opened Decimal
  import opened Seqs
  import opened Lexicographic

  /** A catalog section (`ISection`): a heading and its athletic names. */
  datatype Section = Section(head: string, names: seq<string>)

  /** One `Object.entries` pair of the catalog: a key and its sections. */
  datatype Entry = Entry(key: string, sections: seq<Section>)

  /** The decoded catalog: its entries in enumeration order, or a failed fetch. */
  datatype CatalogReply = Catalog(entries: seq<Entry>) | Unreachable

  /** The payload sent to the ranking handler. */
  datatype Payload = Payload(id: string, name: string)

  /** `[...p, ...n]` folded from the left over `parts`, starting at `acc`. */
  function ConcatFrom(acc: seq<string>, parts: seq<seq<string>>): seq<string>
    decreases |parts|
  {
    if |parts| == 0 then acc else ConcatFrom(acc + parts[0], parts[1..])
  }

  /** `value.map((v) => v.name)`. */
  function NameLists(sections: seq<Section>): (lists: seq<seq<string>>)
    ensures |lists| == |sections|
    ensures forall i :: 0 <= i < |sections| ==> lists[i] == sections[i].names
  {
    seq(|sections|, i requires 0 <= i < |sections| => sections[i].names)
  }

  /**
   * `.reduce((p, n) => [...p, ...n])` with no initial value: the first list
   * is the start; an empty section list throws a TypeError (`None`).
   */
  function ReduceNames(sections: seq<Section>): Option<seq<string>> {
    var lists := NameLists(sections);
    if |lists| == 0 then None else Some(ConcatFrom(lists[0], lists[1..]))
  }

  /**
   * The outer `Object.entries(res).reduce(..., [])`: each entry's names
   * appended in turn; the first entry whose reduce throws aborts it.
   */
  function FlattenFrom(acc: seq<string>, entries: seq<Entry>): Option<seq<string>>
    decreases |entries|
  {
    if |entries| == 0 then Some(acc)
    else
      match ReduceNames(entries[0].sections)
      case None => None
      case Some(names) => FlattenFrom(acc + names, entries[1..])
  }

  function Flatten(entries: seq<Entry>): Option<seq<string>> {
    FlattenFrom([], entries)
  }

  // An independent reading of the catalog: every section's names, entry by entry.

  function SectionNames(sections: seq<Section>): seq<string>
    decreases |sections|
  {
    if |sections| == 0 then [] else sections[0].names + SectionNames(sections[1..])
  }

  function CatalogNames(entries: seq<Entry>): seq<string>
    decreases |entries|
  {
    if |entries| == 0 then [] else SectionNames(entries[0].sections) + CatalogNames(entries[1..])
  }

  /** Total number of names over all sections of all entries. */
  function NameCount(entries: seq<Entry>): nat
    decreases |entries|
  {
    if |entries| == 0 then 0 else SectionCount(entries[0].sections) + NameCount(entries[1..])
  }

  function SectionCount(sections: seq<Section>): nat
    decreases |sections|
  {
    if |sections| == 0 then 0 else |sections[0].names| + SectionCount(sections[1..])
  }

  /** Some entry of the catalog has no sections. */
  predicate HasEmptyEntry(entries: seq<Entry>) {
    exists i :: 0 <= i < |entries| && entries[i].sections == []
  }

  lemma {:induction false} ConcatFromIsAppend(acc: seq<string>, sections: seq<Section>)
    ensures ConcatFrom(acc, NameLists(sections)) == acc + SectionNames(sections)
    decreases |sections|
  {
    if |sections| == 0 {
      assert acc + [] == acc;
    } else {
      assert NameLists(sections)[1..] == NameLists(sections[1..]);
      ConcatFromIsAppend(acc + sections[0].names, sections[1..]);
      assert acc + sections[0].names + SectionNames(sections[1..]) == acc + SectionNames(sections);
    }
  }

  /** The inner reduce yields every name of the sections in order, and throws only on no sections. */
  lemma ReduceNamesMeaning(sections: seq<Section>)
    ensures ReduceNames(sections).None? <==> sections == []
    ensures sections != [] ==> ReduceNames(sections) == Some(SectionNames(sections))
  {
    if sections != [] {
      var lists := NameLists(sections);
      assert lists[1..] == NameLists(sections[1..]);
      ConcatFromIsAppend(lists[0], sections[1..]);
    }
  }

  lemma {:induction false} FlattenFromMeaning(acc: seq<string>, entries: seq<Entry>)
    ensures FlattenFrom(acc, entries).None? <==> HasEmptyEntry(entries)
    ensures !HasEmptyEntry(entries) ==> FlattenFrom(acc, entries) == Some(acc + CatalogNames(entries))
    decreases |entries|
  {
    if |entries| == 0 {
      assert acc + [] == acc;
    } else {
      ReduceNamesMeaning(entries[0].sections);
      if entries[0].sections == [] {
        assert HasEmptyEntry(entries);
      } else {
        var names := SectionNames(entries[0].sections);
        FlattenFromMeaning(acc + names, entries[1..]);
        if HasEmptyEntry(entries[1..]) {
          var i :| 0 <= i < |entries[1..]| && entries[1..][i].sections == [];
          assert entries[i + 1].sections == [];
        }
        if HasEmptyEntry(entries) {
          var i :| 0 <= i < |entries| && entries[i].sections == [];
          assert entries[1..][i - 1].sections == [];
        }
        assert acc + names + CatalogNames(entries[1..]) == acc + CatalogNames(entries);
      }
    }
  }

  /**
   * The flattened list is every section's names, entry by entry and section
   * by section, with nothing dropped or merged; it is absent (the reduce
   * throws) exactly when some entry has no sections.
   */
  lemma FlattenMeaning(entries: seq<Entry>)
    ensures Flatten(entries).None? <==> HasEmptyEntry(entries)
    ensures !HasEmptyEntry(entries) ==> Flatten(entries) == Some(CatalogNames(entries))
  {
    FlattenFromMeaning([], entries);
    assert [] + CatalogNames(entries) == CatalogNames(entries);
  }

  lemma {:induction false} SectionNamesLength(sections: seq<Section>)
    ensures |SectionNames(sections)| == SectionCount(sections)
    decreases |sections|
  {
    if |sections| > 0 {
      SectionNamesLength(sections[1..]);
    }
  }

  lemma {:induction false} CatalogNamesLength(entries: seq<Entry>)
    ensures |CatalogNames(entries)| == NameCount(entries)
    decreases |entries|
  {
    if |entries| > 0 {
      SectionNamesLength(entries[0].sections);
      CatalogNamesLength(entries[1..]);
    }
  }

  /** No deduplication and no filtering: one name out per name in. */
  lemma FlattenLength(entries: seq<Entry>)
    requires Flatten(entries).Some?
    ensures |Flatten(entries).value| == NameCount(entries)
  {
    FlattenMeaning(entries);
    CatalogNamesLength(entries);
  }

  /** `athleticNames.map((name) => ({ id, name }))`: one payload per name, one shared id. */
  function Payloads(names: seq<string>, id: string): (ps: seq<Payload>)
    ensures |ps| == |names|
    ensures forall i :: 0 <= i < |ps| ==> ps[i].id == id && ps[i].name == names[i]
  {
    seq(|names|, i requires 0 <= i < |names| => Payload(id, names[i]))
  }

  /**
   * What one pass did: the payloads it tried to send, those the invoke
   * accepted, and whether the catch block logged a failure.
   */
  datatype Pass = Pass(attempted: seq<Payload>, delivered: seq<Payload>, failed: bool)

  /**
   * `handler` of the lister. `now` is `new Date().getTime()`, read once per
   * pass; `accepts(i)` says whether the invocation for the `i`-th payload
   * succeeds, each on its own, even for equal payloads. A failed invoke is
   * caught inside `invoke`, so it stops neither the pass nor the other
   * payloads.
   */
  function RunPass(reply: CatalogReply, now: int, accepts: nat -> bool): (p: Pass)
    ensures p.failed ==> p.attempted == [] && p.delivered == []
    ensures exists pos :: DeliveredAt(p.delivered, p.attempted, pos, accepts)
  {
    match reply
    case Unreachable =>
      assert DeliveredAt([], [], [], accepts);
      Pass([], [], true)
    case Catalog(entries) =>
      match Flatten(entries)
      case None =>
        assert DeliveredAt([], [], [], accepts);
        Pass([], [], true)
      case Some(names) =>
        var ps := Payloads(names, IntToString(now));
        var pos := AcceptedPositions(|ps|, accepts);
        var delivered := seq(|pos|, j requires 0 <= j < |pos| => ps[pos[j]]);
        assert DeliveredAt(delivered, ps, pos, accepts);
        Pass(ps, delivered, false)
  }

  /**
   * A name listed twice is attempted twice, and each attempt succeeds or
   * fails on its own: here the first is delivered and the second is not.
   */
  lemma RepeatedNameFailsOnItsOwn(now: int, accepts: nat -> bool, name: string)
    requires accepts(0) && !accepts(1)
    ensures RunPass(Catalog([Entry("k", [Section("h", [name, name])])]), now, accepts).attempted
      == [Payload(IntToString(now), name), Payload(IntToString(now), name)]
    ensures RunPass(Catalog([Entry("k", [Section("h", [name, name])])]), now, accepts).delivered
      == [Payload(IntToString(now), name)]
  {
    var entries := [Entry("k", [Section("h", [name, name])])];
    var x := Payload(IntToString(now), name);
    TwiceListed(entries, name);
    PassAttemptsEveryName(entries, now, accepts);
    var p := RunPass(Catalog(entries), now, accepts);
    assert p.attempted == [x, x];
    var pos' :| DeliveredAt(p.delivered, p.attempted, pos', accepts);
    assert DeliveredAt([x], [x, x], [0], accepts);
    DeliveredAtUnique(p.delivered, [x], p.attempted, pos', [0], accepts);
  }

  lemma TwiceListed(entries: seq<Entry>, name: string)
    requires entries == [Entry("k", [Section("h", [name, name])])]
    ensures !HasEmptyEntry(entries)
    ensures CatalogNames(entries) == [name, name]
  {
    var sections := entries[0].sections;
    assert SectionNames(sections) == [name, name] + SectionNames([]);
    assert CatalogNames(entries) == SectionNames(sections) + CatalogNames([]);
  }

  /**
   * `delivered` is `attempted` read at the increasing positions `pos`, and
   * those are exactly the positions whose invocation succeeds.
   */
  predicate DeliveredAt(delivered: seq<Payload>, attempted: seq<Payload>, pos: seq<nat>, accepts: nat -> bool) {
    && |pos| == |delivered|
    && (forall j :: 0 <= j < |pos| ==> pos[j] < |attempted| && delivered[j] == attempted[pos[j]])
    && Increasing(pos)
    && (forall i :: 0 <= i < |attempted| ==> (i in pos <==> accepts(i)))
  }

  predicate Increasing(pos: seq<nat>) {
    forall j, k :: 0 <= j < k < |pos| ==> pos[j] < pos[k]
  }

  /** The positions below `n` whose invocation succeeds, in increasing order. */
  function AcceptedPositions(n: nat, accepts: nat -> bool): (pos: seq<nat>)
    ensures forall j :: 0 <= j < |pos| ==> pos[j] < n
    ensures Increasing(pos)
    ensures forall i :: 0 <= i < n ==> (i in pos <==> accepts(i))
    decreases n
  {
    if n == 0 then [] else AcceptedPositions(n - 1, accepts) + (if accepts(n - 1) then [n - 1] else [])
  }

  /**
   * The delivered payloads are determined: any two lists read at accepted
   * positions of the same attempts are equal.
   */
  lemma DeliveredAtUnique(d: seq<Payload>, d': seq<Payload>, attempted: seq<Payload>, pos: seq<nat>, pos': seq<nat>, accepts: nat -> bool)
    requires DeliveredAt(d, attempted, pos, accepts) && DeliveredAt(d', attempted, pos', accepts)
    ensures d == d'
  {
    forall x
      ensures x in pos <==> x in pos'
    {
      if x in pos {
        var j :| 0 <= j < |pos| && pos[j] == x;
      }
      if x in pos' {
        var j :| 0 <= j < |pos'| && pos'[j] == x;
      }
    }
    IncreasingSameElements(pos, pos');
  }

  lemma HeadIsElement(s: seq<nat>)
    ensures |s| > 0 ==> s[0] in s
  {}

  /** Two increasing sequences with the same elements are equal. */
  lemma {:induction false} IncreasingSameElements(a: seq<nat>, b: seq<nat>)
    requires Increasing(a) && Increasing(b)
    requires forall x :: x in a <==> x in b
    ensures a == b
    decreases |a|
  {
    HeadIsElement(a);
    HeadIsElement(b);
    if |a| > 0 && |b| > 0 {
      assert a[0] in b && b[0] in a;
      assert a[0] == b[0] by {
        var i :| 0 <= i < |b| && b[i] == a[0];
        var j :| 0 <= j < |a| && a[j] == b[0];
        assert a[0] <= a[j] && b[0] <= b[i];
      }
      forall x
        ensures x in a[1..] <==> x in b[1..]
      {
        if x in a[1..] {
          var j :| 1 <= j < |a| && a[j] == x;
          assert x in b;
        }
        if x in b[1..] {
          var j :| 1 <= j < |b| && b[j] == x;
          assert x in a;
        }
      }
      IncreasingSameElements(a[1..], b[1..]);
    }
  }

  /**
   * A pass over a catalog whose every entry has sections tries one payload
   * per catalog name, in catalog order, all carrying the id rendered from
   * `now`, no matter which invocations fail.
   */
  lemma PassAttemptsEveryName(entries: seq<Entry>, now: int, accepts: nat -> bool)
    requires !HasEmptyEntry(entries)
    ensures !RunPass(Catalog(entries), now, accepts).failed
    ensures RunPass(Catalog(entries), now, accepts).attempted == Payloads(CatalogNames(entries), IntToString(now))
    ensures |RunPass(Catalog(entries), now, accepts).attempted| == NameCount(entries)
  {
    FlattenMeaning(entries);
    CatalogNamesLength(entries);
  }

  /** An entry without sections makes the whole pass send nothing. */
  lemma EmptyEntryStopsPass(entries: seq<Entry>, now: int, accepts: nat -> bool)
    requires HasEmptyEntry(entries)
    ensures RunPass(Catalog(entries), now, accepts) == Pass([], [], true)
  {
    FlattenMeaning(entries);
  }

  /**
   * Ids of later passes sort after those of earlier ones as long as the
   * millisecond clock keeps its number of digits, so the ranking table's
   * latest item belongs to the latest pass.
   */
  lemma {:induction false} LaterPassSortsLater(t: nat, t': nat)
    requires t <= t'
    requires |NatToString(t)| == |NatToString(t')|
    ensures LexLe(IntToString(t), IntToString(t'))
    decreases t'
  {
    var s, s' := NatToString(t), NatToString(t');
    if t' < 10 {
      LexReflexive([]);
    } else {
      assert t >= 10;
      var p, p' := NatToString(t / 10), NatToString(t' / 10);
      assert s == p + [Digit(t % 10)] && s' == p' + [Digit(t' % 10)];
      LaterPassSortsLater(t / 10, t' / 10);
      if t / 10 == t' / 10 {
        LexReflexive(p);
        LexAppendEqual(p, Digit(t % 10), Digit(t' % 10));
      } else {
        ParseNatToString(t / 10);
        ParseNatToString(t' / 10);
        LexAppendStrict(p, p', [Digit(t % 10)], [Digit(t' % 10)]);
      }
    }
  }

  lemma {:induction false} LexAppendEqual(a: string, x: char, y: char)
    requires x <= y
    ensures LexLe(a + [x], a + [y])
    decreases |a|
  {
    if |a| > 0 {
      assert (a + [x])[1..] == a[1..] + [x] && (a + [y])[1..] == a[1..] + [y];
      LexAppendEqual(a[1..], x, y);
    }
  }

  lemma {:induction false} LexAppendStrict(a: string, b: string, u: string, v: string)
    requires |a| == |b| && a != b && LexLe(a, b)
    ensures LexLe(a + u, b + v)
    decreases |a|
  {
    if a[0] == b[0] {
      assert a[1..] != b[1..] by {
        assert a == [a[0]] + a[1..] && b == [b[0]] + b[1..];
      }
      assert (a + u)[1..] == a[1..] + u && (b + v)[1..] == b[1..] + v;
      LexAppendStrict(a[1..], b[1..], u, v);
    }
  }
}
