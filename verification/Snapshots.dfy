/** Comparing two register snapshots under masks, volatility and phase exceptions. */
module Snapshots {
  import opened SortedSets
  import opened Wrappers

  /** A register value or mask, as the set of its one bits; `&` is intersection. */
  type Word = set<nat>
  type Snapshot = map<nat, Word>

  datatype Status =
    CriticalMatch | Match | ExpectedDifference | VolatileSkipped | NotProgrammed | IgnoredObsolete
    | Diff | Missing | Unexpected

  datatype Meta = Meta(name: string, subsystem: string, volatile: bool, mask: Word)
  datatype Options = Options(includeVolatile: bool, mask: Option<Word>, phase: string)

  /** The register table; addresses it does not know are untracked. */
  type Registry = nat -> Option<Meta>

  predicate Critical(addr: nat) {
    addr in {0x00994004, 0x009940ac, 0x009940b0, 0x009940c4, 0x009940cc, 0x0099411c,
             0x008c2004, 0x008c2124, 0x008c2314, 0x008c233c, 0x008c2344, 0x009948cc}
  }

  predicate Obsolete(addr: nat) {
    addr in {0x00994018, 0x009940f0, 0x009941b4, 0x009941b8, 0x009941f4}
  }

  predicate Contains(s: string, t: string) {
    exists i :: 0 <= i <= |s| && t <= s[i..]
  }

  predicate Untracked(meta: Option<Meta>) {
    meta.None? || Contains(meta.value.name, "UNKNOWN")
  }

  function Subsystem(meta: Option<Meta>): string {
    if meta.Some? then meta.value.subsystem else "UNKNOWN"
  }

  /** The bits below `n`: 0xff is `Low(8)`. */
  function Low(n: nat): Word {
    set b: nat | 0 <= b < n && Below(b, n)
  }

  predicate Below(b: nat, n: nat) {
    b < n
  }

  function MaskOf(meta: Option<Meta>, opts: Options): Word {
    if opts.mask.Some? then opts.mask.value else if meta.Some? then meta.value.mask else Low(32)
  }

  function Get(s: Snapshot, addr: nat): Option<Word> {
    if addr in s then Some(s[addr]) else None
  }

  /** Both snapshots have the register and no exception applies. */
  function ByValue(addr: nat, exp: Word, act: Word, meta: Option<Meta>, opts: Options): Status {
    if meta.Some? && meta.value.volatile && !opts.includeVolatile then VolatileSkipped
    else if exp * MaskOf(meta, opts) == act * MaskOf(meta, opts) then if Critical(addr) then CriticalMatch else Match
    else Diff
  }

  function Classify(addr: nat, exp: Option<Word>, act: Option<Word>, meta: Option<Meta>, opts: Options): Status {
    if exp.None? then if Obsolete(addr) || Untracked(meta) then IgnoredObsolete else Unexpected
    else if act.None? then if Obsolete(addr) then IgnoredObsolete else Missing
    else if Obsolete(addr) then IgnoredObsolete
    else if addr == 0x009942a0 then ExpectedDifference
    else if addr == 0x00994440 && act.value * Low(8) == Low(8) then ExpectedDifference
    else if addr == 0x00994850 then ExpectedDifference
    else if addr == 0x00994004 && opts.phase == "mode1" && act.value * Low(1) == {} then NotProgrammed
    else ByValue(addr, exp.value, act.value, meta, opts)
  }

  // ----- counters -----

  datatype Class = Matched | Skipped | Differs | Absent | Extra

  /** The counter a status belongs to; the finer match kinds also count as matches. */
  function ClassOf(s: Status): Class {
    match s
    case VolatileSkipped => Skipped
    case Diff => Differs
    case Missing => Absent
    case Unexpected => Extra
    case _ => Matched
  }

  datatype Line = Line(addr: nat, subsystem: string, status: Status)

  function Hits(lines: seq<Line>, c: Class): nat {
    if lines == [] then 0
    else Hits(lines[..|lines| - 1], c) + if ClassOf(lines[|lines| - 1].status) == c then 1 else 0
  }

  function SubsystemHits(lines: seq<Line>, name: string, c: Class): nat {
    if lines == [] then 0
    else
      var l := lines[|lines| - 1];
      SubsystemHits(lines[..|lines| - 1], name, c) + if l.subsystem == name && ClassOf(l.status) == c then 1 else 0
  }

  datatype Counts = Counts(matched: nat, skipped: nat, diff: nat, missing: nat, unexpected: nat)
  datatype Tally = Tally(matched: nat, diff: nat, missing: nat, skipped: nat)

  function CountsOf(lines: seq<Line>): Counts {
    Counts(Hits(lines, Matched), Hits(lines, Skipped), Hits(lines, Differs), Hits(lines, Absent), Hits(lines, Extra))
  }

  function TallyOf(lines: seq<Line>, name: string): Tally {
    Tally(SubsystemHits(lines, name, Matched), SubsystemHits(lines, name, Differs),
          SubsystemHits(lines, name, Absent), SubsystemHits(lines, name, Skipped))
  }

  lemma LineAdded(lines: seq<Line>, l: Line, name: string, c: Class)
    ensures Hits(lines + [l], c) == Hits(lines, c) + if ClassOf(l.status) == c then 1 else 0
    ensures SubsystemHits(lines + [l], name, c) ==
            SubsystemHits(lines, name, c) + if l.subsystem == name && ClassOf(l.status) == c then 1 else 0
  {
    assert (lines + [l])[..|lines|] == lines;
  }

  // ----- the comparison -----

  datatype Report = Report(pass: bool, total: nat, counts: Counts, subsystems: map<string, Tally>, lines: seq<Line>)

  function LineOf(expected: Snapshot, actual: Snapshot, registry: Registry, opts: Options, addr: nat): Line {
    var meta := registry(addr);
    Line(addr, Subsystem(meta), Classify(addr, Get(expected, addr), Get(actual, addr), meta, opts))
  }

  /** No register differs and none is missing. */
  predicate Agrees(expected: Snapshot, actual: Snapshot, registry: Registry, opts: Options) {
    forall addr :: addr in expected ==> LineOf(expected, actual, registry, opts, addr).status !in {Diff, Missing}
  }

  /** The lines are those of the given addresses, in their order. */
  predicate LinesOf(lines: seq<Line>, all: seq<nat>, expected: Snapshot, actual: Snapshot, registry: Registry, opts: Options)
  {
    |lines| <= |all| && forall i :: 0 <= i < |lines| ==> lines[i] == LineOf(expected, actual, registry, opts, all[i])
  }

  predicate SubsystemsRight(m: map<string, Tally>, lines: seq<Line>) {
    && (forall i :: 0 <= i < |lines| ==> lines[i].subsystem in m)
    && (forall name :: name in m ==> m[name] == TallyOf(lines, name))
  }

  function Bump(t: Tally, c: Class): Tally {
    match c
    case Matched => t.(matched := t.matched + 1)
    case Differs => t.(diff := t.diff + 1)
    case Absent => t.(missing := t.missing + 1)
    case Skipped => t.(skipped := t.skipped + 1)
    case Extra => t
  }

  function BumpCounts(t: Counts, c: Class): Counts {
    match c
    case Matched => t.(matched := t.matched + 1)
    case Differs => t.(diff := t.diff + 1)
    case Absent => t.(missing := t.missing + 1)
    case Skipped => t.(skipped := t.skipped + 1)
    case Extra => t.(unexpected := t.unexpected + 1)
  }

  lemma BumpRight(lines: seq<Line>, l: Line, name: string)
    ensures TallyOf(lines + [l], name) ==
            if l.subsystem == name then Bump(TallyOf(lines, name), ClassOf(l.status)) else TallyOf(lines, name)
    ensures CountsOf(lines + [l]) == BumpCounts(CountsOf(lines), ClassOf(l.status))
  {
    hide Hits, SubsystemHits;
    LineAdded(lines, l, name, Matched);
    LineAdded(lines, l, name, Differs);
    LineAdded(lines, l, name, Absent);
    LineAdded(lines, l, name, Skipped);
    LineAdded(lines, l, name, Extra);
  }

  lemma {:induction false} NewName(lines: seq<Line>, name: string)
    requires forall i :: 0 <= i < |lines| ==> lines[i].subsystem != name
    ensures TallyOf(lines, name) == Tally(0, 0, 0, 0)
  {
    if lines != [] {
      NewName(lines[..|lines| - 1], name);
    }
  }

  lemma SubsystemAdded(m: map<string, Tally>, lines: seq<Line>, l: Line)
    requires SubsystemsRight(m, lines)
    ensures var was := if l.subsystem in m then m[l.subsystem] else Tally(0, 0, 0, 0);
            SubsystemsRight(m[l.subsystem := Bump(was, ClassOf(l.status))], lines + [l])
  {
    hide TallyOf, Bump;
    var was := if l.subsystem in m then m[l.subsystem] else Tally(0, 0, 0, 0);
    var m' := m[l.subsystem := Bump(was, ClassOf(l.status))];
    if l.subsystem !in m {
      NewName(lines, l.subsystem);
    }
    forall name | name in m' ensures m'[name] == TallyOf(lines + [l], name) {
      BumpRight(lines, l, name);
    }
  }

  lemma {:induction false} NoHits(lines: seq<Line>, c: Class)
    ensures Hits(lines, c) == 0 <==> forall i :: 0 <= i < |lines| ==> ClassOf(lines[i].status) != c
  {
    if lines != [] {
      NoHits(lines[..|lines| - 1], c);
    }
  }

  lemma LineClass(addr: nat, exp: Option<Word>, act: Option<Word>, meta: Option<Meta>, opts: Options)
    ensures Classify(addr, exp, act, meta, opts) in {Diff, Missing} ==> exp.Some?
  {
  }

  /** The verdict reads two counters; they are zero exactly when the snapshots agree. */
  lemma AgreesIff(
    lines: seq<Line>, counts: Counts, subs: map<string, Tally>, all: seq<nat>, expected: Snapshot, actual: Snapshot,
    registry: Registry, opts: Options)
    requires LinesOf(lines, all, expected, actual, registry, opts) && |lines| == |all|
    requires Tallied(lines, counts, subs) && forall x :: x in all <==> x in expected || x in actual
    ensures counts.diff == 0 && counts.missing == 0 <==> Agrees(expected, actual, registry, opts)
  {
    hide Hits, Classify, SubsystemsRight;
    NoHits(lines, Differs);
    NoHits(lines, Absent);
    if Agrees(expected, actual, registry, opts) {
      forall i | 0 <= i < |lines| ensures ClassOf(lines[i].status) !in {Differs, Absent} {
        var a := all[i];
        assert a in all;
        LineClass(a, Get(expected, a), Get(actual, a), registry(a), opts);
      }
    } else {
      var addr :| addr in expected && LineOf(expected, actual, registry, opts, addr).status in {Diff, Missing};
      var i :| 0 <= i < |all| && all[i] == addr;
      assert ClassOf(lines[i].status) in {Differs, Absent};
    }
  }

  lemma ListsAll(lines: seq<Line>, all: seq<nat>, expected: Snapshot, actual: Snapshot, registry: Registry, opts: Options)
    requires LinesOf(lines, all, expected, actual, registry, opts) && |lines| == |all|
    requires forall x :: x in all <==> x in expected || x in actual
    ensures forall addr :: addr in expected || addr in actual <==>
                           LineOf(expected, actual, registry, opts, addr) in lines
  {
    hide Classify;
    forall addr ensures addr in all <==> LineOf(expected, actual, registry, opts, addr) in lines {
      if addr in all {
        var i :| 0 <= i < |all| && all[i] == addr;
        assert lines[i] == LineOf(expected, actual, registry, opts, addr);
      }
      if LineOf(expected, actual, registry, opts, addr) in lines {
        var i :| 0 <= i < |lines| && lines[i] == LineOf(expected, actual, registry, opts, addr);
        assert all[i] == addr;
      }
    }
  }

  /** The lines, counters and tallies that belong together. */
  predicate Tallied(lines: seq<Line>, counts: Counts, subs: map<string, Tally>) {
    counts == CountsOf(lines) && SubsystemsRight(subs, lines)
  }

  method CountLine(lines: seq<Line>, l: Line, counts: Counts, subs: map<string, Tally>)
    returns (counts': Counts, subs': map<string, Tally>)
    requires Tallied(lines, counts, subs)
    ensures Tallied(lines + [l], counts', subs')
  {
    hide CountsOf, TallyOf, Bump, BumpCounts, SubsystemsRight;
    BumpRight(lines, l, l.subsystem);
    SubsystemAdded(subs, lines, l);
    var was := if l.subsystem in subs then subs[l.subsystem] else Tally(0, 0, 0, 0);
    counts' := BumpCounts(counts, ClassOf(l.status));
    subs' := subs[l.subsystem := Bump(was, ClassOf(l.status))];
  }

  lemma LinesGrow(
    lines: seq<Line>, all: seq<nat>, expected: Snapshot, actual: Snapshot, registry: Registry, opts: Options)
    requires LinesOf(lines, all, expected, actual, registry, opts) && |lines| < |all|
    ensures LinesOf(lines + [LineOf(expected, actual, registry, opts, all[|lines|])], all, expected, actual, registry, opts)
  {
    hide LineOf;
  }

  lemma AddressesIncrease(
    lines: seq<Line>, all: seq<nat>, expected: Snapshot, actual: Snapshot, registry: Registry, opts: Options)
    requires LinesOf(lines, all, expected, actual, registry, opts) && |lines| == |all| && Increasing(all)
    ensures InOrder(lines)
  {
    hide Classify;
  }

  predicate InOrder(lines: seq<Line>) {
    forall i, j :: 0 <= i < j < |lines| ==> lines[i].addr < lines[j].addr
  }

  // ----- the verdict on the bits themselves -----

  /** Bit `b` is compared: the mask given, else the register's own, else all 32 bits. */
  predicate Compared(b: nat, meta: Option<Meta>, opts: Options) {
    match opts.mask
    case Some(m) => b in m
    case None => if meta.Some? then b in meta.value.mask else b < 32
  }

  predicate BitsDiffer(e: Word, a: Word, meta: Option<Meta>, opts: Options) {
    exists b :: b in e + a && Compared(b, meta, opts) && (b in e) != (b in a)
  }

  /** The registers whose reference value is known to be out of date. */
  predicate OutOfDate(addr: nat) {
    addr == 0x00994018 || addr == 0x009940f0 || addr == 0x009941b4 || addr == 0x009941b8 || addr == 0x009941f4
  }

  /** A difference the hardware or the phase explains. */
  predicate Explained(addr: nat, act: Word, phase: string) {
    || addr == 0x009942a0 || addr == 0x00994850
    || (addr == 0x00994440 && forall b: nat :: b < 8 ==> b in act)
    || (addr == 0x00994004 && phase == "mode1" && 0 !in act)
  }

  predicate LeftOut(meta: Option<Meta>, opts: Options) {
    meta.Some? && meta.value.volatile && !opts.includeVolatile
  }

  /** Both snapshots hold the register and nothing exempts it. */
  predicate Examined(expected: Snapshot, actual: Snapshot, registry: Registry, opts: Options, addr: nat) {
    && addr in expected && addr in actual && !OutOfDate(addr) && !Explained(addr, actual[addr], opts.phase)
    && !LeftOut(registry(addr), opts)
  }

  predicate Differing(expected: Snapshot, actual: Snapshot, registry: Registry, opts: Options, addr: nat) {
    && Examined(expected, actual, registry, opts, addr)
    && BitsDiffer(expected[addr], actual[addr], registry(addr), opts)
  }

  predicate Lacking(expected: Snapshot, actual: Snapshot, addr: nat) {
    addr in expected && addr !in actual && !OutOfDate(addr)
  }

  predicate Surplus(expected: Snapshot, actual: Snapshot, registry: Registry, addr: nat) {
    && addr !in expected && addr in actual && !OutOfDate(addr)
    && registry(addr).Some? && !Contains(registry(addr).value.name, "UNKNOWN")
  }

  predicate PassedOver(expected: Snapshot, actual: Snapshot, registry: Registry, opts: Options, addr: nat) {
    && addr in expected && addr in actual && !OutOfDate(addr) && !Explained(addr, actual[addr], opts.phase)
    && LeftOut(registry(addr), opts)
  }

  lemma MaskedEqual(e: Word, a: Word, meta: Option<Meta>, opts: Options)
    ensures e * MaskOf(meta, opts) == a * MaskOf(meta, opts) <==> !BitsDiffer(e, a, meta, opts)
  {
    var m := MaskOf(meta, opts);
    assert forall b: nat :: b in m <==> Compared(b, meta, opts);
    if BitsDiffer(e, a, meta, opts) {
      var b :| b in e + a && Compared(b, meta, opts) && (b in e) != (b in a);
      assert (b in e * m) != (b in a * m);
    }
    if e * m != a * m {
      var b :| (b in e * m) != (b in a * m);
      assert b in e + a && Compared(b, meta, opts) && (b in e) != (b in a);
    }
  }

  lemma LowByte(a: Word)
    ensures a * Low(8) == Low(8) <==> forall b: nat :: b < 8 ==> b in a
    ensures a * Low(1) == {} <==> 0 !in a
  {
    if a * Low(8) == Low(8) {
      forall b: nat | b < 8 ensures b in a {
        assert Below(b, 8) && b in Low(8);
      }
    }
    assert Low(1) == {0} by {
      assert Below(0, 1) && 0 in Low(1);
    }
    assert 0 in a <==> 0 in a * Low(1);
  }

  /** The controller's master bit, which the first mode leaves off. */
  predicate Held(expected: Snapshot, actual: Snapshot, opts: Options, addr: nat) {
    addr in expected && addr in actual && addr == 0x00994004 && opts.phase == "mode1" && 0 !in actual[addr]
  }

  /** What each status of a register of either snapshot means, in its bits and its address. */
  lemma StatusMeans(expected: Snapshot, actual: Snapshot, registry: Registry, opts: Options, addr: nat)
    requires addr in expected || addr in actual
    ensures var l := LineOf(expected, actual, registry, opts, addr);
            && l.addr == addr && l.subsystem == if registry(addr).Some? then registry(addr).value.subsystem else "UNKNOWN"
    ensures var s := LineOf(expected, actual, registry, opts, addr).status;
            && (s == Diff <==> Differing(expected, actual, registry, opts, addr))
            && (s == Missing <==> Lacking(expected, actual, addr))
            && (s == Unexpected <==> Surplus(expected, actual, registry, addr))
            && (s == VolatileSkipped <==> PassedOver(expected, actual, registry, opts, addr))
            && (s == CriticalMatch ==> Critical(addr)) && (s == Match ==> !Critical(addr))
            && (s in {Match, CriticalMatch} <==>
                Examined(expected, actual, registry, opts, addr) && !Differing(expected, actual, registry, opts, addr))
            && (s == NotProgrammed <==> Held(expected, actual, opts, addr))
            && (s == ExpectedDifference <==>
                  && addr in expected && addr in actual && !OutOfDate(addr) && Explained(addr, actual[addr], opts.phase)
                  && !Held(expected, actual, opts, addr))
  {
    hide MaskOf, Low, Contains, BitsDiffer;
    if addr in expected && addr in actual {
      LowByte(actual[addr]);
      MaskedEqual(expected[addr], actual[addr], registry(addr), opts);
    }
  }

  /** The addresses of the lines under one counter. */
  function AddressesOf(lines: seq<Line>, c: Class): set<nat> {
    if lines == [] then {}
    else
      var l := lines[|lines| - 1];
      AddressesOf(lines[..|lines| - 1], c) + if ClassOf(l.status) == c then {l.addr} else {}
  }

  lemma {:induction false} AddressListed(lines: seq<Line>, c: Class, a: nat)
    ensures a in AddressesOf(lines, c) <==> exists l :: l in lines && ClassOf(l.status) == c && l.addr == a
  {
    hide ClassOf;
    if lines != [] {
      var less, l := lines[..|lines| - 1], lines[|lines| - 1];
      AddressListed(less, c, a);
      assert lines == less + [l];
      assert forall x :: x in lines <==> x in less || x == l;
    }
  }

  lemma {:induction false} HitsAreAddresses(lines: seq<Line>, c: Class)
    requires InOrder(lines)
    ensures Hits(lines, c) == |AddressesOf(lines, c)|
  {
    hide ClassOf;
    if lines != [] {
      var less, l := lines[..|lines| - 1], lines[|lines| - 1];
      HitsAreAddresses(less, c);
      AddressListed(less, c, l.addr);
      assert l.addr !in AddressesOf(less, c);
    }
  }

  /** The counters of the verdict count the registers that differ, are lacking, and are surplus. */
  ghost predicate CountsMean(c: Counts, expected: Snapshot, actual: Snapshot, registry: Registry, opts: Options) {
    var all := expected.Keys + actual.Keys;
    && c.diff == |set a | a in all && Differing(expected, actual, registry, opts, a)|
    && c.missing == |set a | a in all && Lacking(expected, actual, a)|
    && c.unexpected == |set a | a in all && Surplus(expected, actual, registry, a)|
    && c.skipped == |set a | a in all && PassedOver(expected, actual, registry, opts, a)|
  }

  predicate ListsEvery(lines: seq<Line>, expected: Snapshot, actual: Snapshot, registry: Registry, opts: Options) {
    && (forall l :: l in lines ==> l.addr in expected.Keys + actual.Keys && l == LineOf(expected, actual, registry, opts, l.addr))
    && (forall a :: a in expected.Keys + actual.Keys ==> LineOf(expected, actual, registry, opts, a) in lines)
  }

  /** A counter counts the registers whose line falls under it. */
  lemma CounterMeans(
    lines: seq<Line>, expected: Snapshot, actual: Snapshot, registry: Registry, opts: Options, c: Class, s: set<nat>)
    requires InOrder(lines) && ListsEvery(lines, expected, actual, registry, opts)
    requires s <= expected.Keys + actual.Keys
    requires forall a :: a in expected.Keys + actual.Keys ==>
               (ClassOf(LineOf(expected, actual, registry, opts, a).status) == c <==> a in s)
    ensures Hits(lines, c) == |s|
  {
    hide LineOf, ClassOf, Hits, InOrder;
    HitsAreAddresses(lines, c);
    forall a ensures a in AddressesOf(lines, c) <==> a in s {
      AddressListed(lines, c, a);
      if a in s {
        assert LineOf(expected, actual, registry, opts, a) in lines;
        LineAddress(expected, actual, registry, opts, a);
      }
    }
    assert AddressesOf(lines, c) == s;
  }

  lemma LineAddress(expected: Snapshot, actual: Snapshot, registry: Registry, opts: Options, a: nat)
    ensures LineOf(expected, actual, registry, opts, a).addr == a
  {
  }

  lemma CountersMean(
    lines: seq<Line>, counts: Counts, expected: Snapshot, actual: Snapshot, registry: Registry, opts: Options)
    requires InOrder(lines) && counts == CountsOf(lines) && ListsEvery(lines, expected, actual, registry, opts)
    ensures CountsMean(counts, expected, actual, registry, opts)
  {
    hide Hits, LineOf, InOrder, ListsEvery, Differing, Lacking, Surplus, PassedOver, Examined;
    var all := expected.Keys + actual.Keys;
    forall a | a in all ensures StatusAgrees(expected, actual, registry, opts, a) {
      StatusMeans(expected, actual, registry, opts, a);
    }
    CounterMeans(lines, expected, actual, registry, opts, Differs, set a | a in all && Differing(expected, actual, registry, opts, a));
    CounterMeans(lines, expected, actual, registry, opts, Absent, set a | a in all && Lacking(expected, actual, a));
    CounterMeans(lines, expected, actual, registry, opts, Extra, set a | a in all && Surplus(expected, actual, registry, a));
    CounterMeans(lines, expected, actual, registry, opts, Skipped, set a | a in all && PassedOver(expected, actual, registry, opts, a));
  }

  predicate StatusAgrees(expected: Snapshot, actual: Snapshot, registry: Registry, opts: Options, a: nat) {
    var c := ClassOf(LineOf(expected, actual, registry, opts, a).status);
    && (c == Differs <==> Differing(expected, actual, registry, opts, a))
    && (c == Absent <==> Lacking(expected, actual, a))
    && (c == Extra <==> Surplus(expected, actual, registry, a))
    && (c == Skipped <==> PassedOver(expected, actual, registry, opts, a))
  }

  /** The report lists every register of either snapshot once, in address order, with its counters. */
  method Compare(expected: Snapshot, actual: Snapshot, registry: Registry, opts: Options) returns (r: Report)
    ensures InOrder(r.lines)
    ensures forall addr :: addr in expected || addr in actual <==>
                           LineOf(expected, actual, registry, opts, addr) in r.lines
    ensures r.total == |expected.Keys + actual.Keys| == |r.lines|
    ensures Tallied(r.lines, r.counts, r.subsystems)
    ensures r.pass <==> Agrees(expected, actual, registry, opts)
    ensures r.pass <==> forall addr :: addr in expected ==>
                          !Differing(expected, actual, registry, opts, addr) && !Lacking(expected, actual, addr)
    ensures CountsMean(r.counts, expected, actual, registry, opts)
  {
    hide LineOf, LinesOf, Tallied, CountsOf, Agrees, InOrder, CountsMean, ListsEvery, Differing, Lacking;
    var all := Sorted(expected.Keys + actual.Keys);
    var lines, counts, subs := [], Counts(0, 0, 0, 0, 0), map[];
    EmptyRight(all, expected, actual, registry, opts);
    while |lines| < |all|
      invariant |lines| <= |all| && LinesOf(lines, all, expected, actual, registry, opts)
      invariant Tallied(lines, counts, subs)
      decreases |all| - |lines|
    {
      var l := LineOf(expected, actual, registry, opts, all[|lines|]);
      LinesGrow(lines, all, expected, actual, registry, opts);
      counts, subs := CountLine(lines, l, counts, subs);
      lines := lines + [l];
    }
    SortedSize(all, expected.Keys + actual.Keys);
    AddressesIncrease(lines, all, expected, actual, registry, opts);
    AgreesIff(lines, counts, subs, all, expected, actual, registry, opts);
    ListsAll(lines, all, expected, actual, registry, opts);
    ReportMeans(lines, counts, subs, all, expected, actual, registry, opts);
    r := Report(counts.diff == 0 && counts.missing == 0, |all|, counts, subs, lines);
  }

  lemma ReportMeans(
    lines: seq<Line>, counts: Counts, subs: map<string, Tally>, all: seq<nat>, expected: Snapshot, actual: Snapshot,
    registry: Registry, opts: Options)
    requires LinesOf(lines, all, expected, actual, registry, opts) && |lines| == |all| && InOrder(lines)
    requires Tallied(lines, counts, subs) && forall x :: x in all <==> x in expected || x in actual
    ensures CountsMean(counts, expected, actual, registry, opts)
    ensures Agrees(expected, actual, registry, opts) <==>
            forall addr :: addr in expected ==>
              !Differing(expected, actual, registry, opts, addr) && !Lacking(expected, actual, addr)
  {
    hide LineOf, CountsOf, CountsMean, InOrder, Differing, Lacking, Surplus, PassedOver, Examined, SubsystemsRight;
    assert ListsEvery(lines, expected, actual, registry, opts) by {
      ListsAll(lines, all, expected, actual, registry, opts);
      EachListed(lines, all, expected, actual, registry, opts);
    }
    CountersMean(lines, counts, expected, actual, registry, opts);
    forall addr | addr in expected ensures LineOf(expected, actual, registry, opts, addr).status in {Diff, Missing} <==>
                                           Differing(expected, actual, registry, opts, addr) || Lacking(expected, actual, addr) {
      StatusMeans(expected, actual, registry, opts, addr);
    }
  }

  lemma EachListed(lines: seq<Line>, all: seq<nat>, expected: Snapshot, actual: Snapshot, registry: Registry, opts: Options)
    requires LinesOf(lines, all, expected, actual, registry, opts)
    requires forall x :: x in all <==> x in expected || x in actual
    ensures forall l :: l in lines ==>
              l.addr in expected.Keys + actual.Keys && l == LineOf(expected, actual, registry, opts, l.addr)
  {
    hide Classify;
    forall l | l in lines ensures l.addr in expected.Keys + actual.Keys && l == LineOf(expected, actual, registry, opts, l.addr) {
      var i :| 0 <= i < |lines| && lines[i] == l;
      assert all[i] in all;
    }
  }

  lemma EmptyRight(all: seq<nat>, expected: Snapshot, actual: Snapshot, registry: Registry, opts: Options)
    ensures Tallied([], Counts(0, 0, 0, 0, 0), map[]) && LinesOf([], all, expected, actual, registry, opts)
  {
  }

  // ----- what the counters add up to -----

  /** Every register falls under exactly one of the five counters. */
  lemma {:induction false} CountsAddUp(lines: seq<Line>)
    ensures var c := CountsOf(lines); c.matched + c.skipped + c.diff + c.missing + c.unexpected == |lines|
  {
    if lines != [] {
      CountsAddUp(lines[..|lines| - 1]);
    }
  }

  function Sum(names: seq<string>, lines: seq<Line>, c: Class): nat {
    if names == [] then 0 else Sum(names[1..], lines, c) + SubsystemHits(lines, names[0], c)
  }

  predicate Distinct(names: seq<string>) {
    forall i, j :: 0 <= i < j < |names| ==> names[i] != names[j]
  }

  lemma {:induction false} SumGrows(names: seq<string>, lines: seq<Line>, l: Line, c: Class)
    requires Distinct(names)
    ensures Sum(names, lines + [l], c) ==
            Sum(names, lines, c) + if l.subsystem in names && ClassOf(l.status) == c then 1 else 0
  {
    hide SubsystemHits;
    if names != [] {
      SumGrows(names[1..], lines, l, c);
      LineAdded(lines, l, names[0], c);
      assert names == [names[0]] + names[1..];
      assert forall j :: 1 <= j < |names| ==> names[j] != names[0];
    }
  }

  lemma {:induction false} SumOfNothing(names: seq<string>, c: Class)
    ensures Sum(names, [], c) == 0
  {
    if names != [] {
      SumOfNothing(names[1..], c);
    }
  }

  /** The tallies of all subsystems, listed in any order, add up to the global counter. */
  lemma {:induction false} SubsystemsAddUp(names: seq<string>, lines: seq<Line>, c: Class)
    requires Distinct(names) && forall i :: 0 <= i < |lines| ==> lines[i].subsystem in names
    ensures Sum(names, lines, c) == Hits(lines, c)
    decreases |lines|
  {
    hide SubsystemHits;
    if lines == [] {
      SumOfNothing(names, c);
    } else {
      var less, l := lines[..|lines| - 1], lines[|lines| - 1];
      assert less + [l] == lines;
      SubsystemsAddUp(names, less, c);
      SumGrows(names, less, l, c);
    }
  }

  // ----- what PASS survives -----

  /** A snapshot compared with itself passes, whatever the options. */
  lemma SelfAgrees(s: Snapshot, registry: Registry, opts: Options)
    ensures Agrees(s, s, registry, opts)
  {
  }

  lemma MaskCleared(e: Word, a: Word, m: Word, n: Word)
    requires e * m == a * m && n <= m
    ensures e * n == a * n
  {
    assert e * n == (e * m) * n;
    assert a * n == (a * m) * n;
  }

  /** Looser options: no mask gains a bit, and volatile registers may be left out. */
  predicate Looser(tight: Options, loose: Options, registry: Registry, addrs: set<nat>) {
    && tight.phase == loose.phase && (loose.includeVolatile ==> tight.includeVolatile)
    && forall a :: a in addrs ==> MaskOf(registry(a), loose) <= MaskOf(registry(a), tight)
  }

  /** A comparison that passes still passes with mask bits cleared or volatile registers excluded. */
  lemma AgreesLoosely(expected: Snapshot, actual: Snapshot, registry: Registry, tight: Options, loose: Options)
    requires Looser(tight, loose, registry, expected.Keys) && Agrees(expected, actual, registry, tight)
    ensures Agrees(expected, actual, registry, loose)
  {
    hide MaskOf;
    forall addr | addr in expected ensures LineOf(expected, actual, registry, loose, addr).status !in {Diff, Missing} {
      assert LineOf(expected, actual, registry, tight, addr).status !in {Diff, Missing};
      if addr in actual {
        var meta := registry(addr);
        var e, a, m, n := expected[addr], actual[addr], MaskOf(meta, tight), MaskOf(meta, loose);
        if e * m == a * m {
          MaskCleared(e, a, m, n);
        }
      }
    }
  }
}
