/** models/c_ext/main.cpp: the fetch state machine for mixed 16- and 32-bit instructions.

    Memory is read a word at a time; instructions are made of half-words and may straddle
    words. A half-word equal to 3 starts a 32-bit instruction. */
module Fetch {
  import opened Words

  datatype State = Prefetch | FetchWord | FetchMore | Decode32 | Decode16 | Exec

  datatype Insn = Wide32(slot: u32) | Narrow16(slot: u32)

  /** Result of one tick: it went on, it stopped at the end of memory (`return false`), or
      `mem.at` threw std::out_of_range. */
  datatype Tick = Ticked | Halted | OutOfRange

  // ---- what the half-word stream says ----

  /** Half-word i of the flattened memory, low half first. */
  function HalfAt(mem: seq<u32>, i: nat): (h: u32)
    requires i < 2 * |mem|
    ensures h < 0x1_0000
  {
    if i % 2 == 0 then mem[i / 2] % 0x1_0000 else mem[i / 2] / 0x1_0000
  }

  /** The instructions from half-word p on, and whether the last one is complete. */
  datatype Parsed = Parsed(insns: seq<Insn>, complete: bool)

  function Parse(mem: seq<u32>, p: nat): (r: Parsed)
    decreases 2 * |mem| - p
  {
    if p >= 2 * |mem| then Parsed([], true)
    else if HalfAt(mem, p) != 3 then
      var rest := Parse(mem, p + 1);
      Parsed([Narrow16(HalfAt(mem, p))] + rest.insns, rest.complete)
    else if p + 1 >= 2 * |mem| then Parsed([], false)
    else
      var rest := Parse(mem, p + 2);
      Parsed([Wide32(3 + HalfAt(mem, p + 1) * 0x1_0000)] + rest.insns, rest.complete)
  }

  /** A word is its two half-words, the low one first in the stream. */
  lemma WordIsHalves(mem: seq<u32>, i: nat)
    requires i < |mem|
    ensures mem[i] == HalfAt(mem, 2 * i) + HalfAt(mem, 2 * i + 1) * 0x1_0000
  {
    assert (2 * i) / 2 == i && (2 * i + 1) / 2 == i;
  }

  /** The half-words an instruction occupies. */
  function Parcels(i: Insn): (p: seq<int>)
    ensures i.Narrow16? ==> p == [i.slot]
    ensures i.Wide32? ==> |p| == 2 && 0 <= p[0] < 0x1_0000 && 0 <= p[1] < 0x1_0000 && i.slot == p[0] + p[1] * 0x1_0000
  {
    match i
    case Narrow16(s) => [s]
    case Wide32(s) => [s % 0x1_0000, s / 0x1_0000]
  }

  /** The half-words of a list of instructions, one after the other. */
  function Flatten(s: seq<Insn>): (h: seq<int>)
  {
    if s == [] then [] else Parcels(s[0]) + Flatten(s[1..])
  }

  lemma {:induction false} FlattenAppend(s: seq<Insn>, i: Insn)
    ensures Flatten(s + [i]) == Flatten(s) + Parcels(i)
    ensures Flatten([]) == []
    decreases |s|
  {
    if s == [] {
      assert [i][1..] == [] && Parcels(i) + [] == Parcels(i) && [] + Parcels(i) == Parcels(i);
      assert s + [i] == [i];
    } else {
      FlattenAppend(s[1..], i);
      assert (s + [i])[1..] == s[1..] + [i];
      assert Parcels(s[0]) + (Flatten(s[1..]) + Parcels(i)) == (Parcels(s[0]) + Flatten(s[1..])) + Parcels(i);
    }
  }

  /** A half-word other than 3 on its own, or 3 and the half-word after it. */
  ghost predicate Encoded(i: Insn)
  {
    match i
    case Narrow16(s) => s < 0x1_0000 && s != 3
    case Wide32(s) => s % 0x1_0000 == 3
  }

  /** The half-words from p on. */
  ghost function Halves(mem: seq<u32>, p: nat): (h: seq<int>)
    requires p <= 2 * |mem|
    ensures |h| == 2 * |mem| - p && forall i :: 0 <= i < |h| ==> h[i] == HalfAt(mem, p + i)
  {
    seq(2 * |mem| - p, i requires 0 <= i < 2 * |mem| - p => HalfAt(mem, p + i))
  }

  /** The instructions are made of exactly the half-words from p on, but for a lone 3 at the
      very end. */
  ghost predicate Reads(mem: seq<u32>, p: nat, r: Parsed)
    requires p <= 2 * |mem|
  {
    && Flatten(r.insns) + (if r.complete then [] else [3]) == Halves(mem, p)
    && forall i :: 0 <= i < |r.insns| ==> Encoded(r.insns[i])
  }

  lemma ReadsCons(mem: seq<u32>, p: nat, q: nat, i: Insn, rest: Parsed)
    requires p <= q <= 2 * |mem| && Reads(mem, q, rest) && Encoded(i)
    requires Parcels(i) + Halves(mem, q) == Halves(mem, p)
    ensures Reads(mem, p, Parsed([i] + rest.insns, rest.complete))
  {
    var s, cut := [i] + rest.insns, if rest.complete then [] else [3];
    assert s[1..] == rest.insns;
    assert Flatten(s) + cut == Parcels(i) + (Flatten(rest.insns) + cut);
  }

  lemma ReadsNarrow(mem: seq<u32>, p: nat, h: u32, rest: Parsed)
    requires p < 2 * |mem| && h == HalfAt(mem, p) != 3 && Reads(mem, p + 1, rest)
    ensures Reads(mem, p, Parsed([Narrow16(h)] + rest.insns, rest.complete))
  {
    assert [h] + Halves(mem, p + 1) == Halves(mem, p);
    ReadsCons(mem, p, p + 1, Narrow16(h), rest);
  }

  lemma ReadsWide(mem: seq<u32>, p: nat, g: u32, rest: Parsed)
    requires p + 1 < 2 * |mem| && HalfAt(mem, p) == 3 && g == HalfAt(mem, p + 1) && Reads(mem, p + 2, rest)
    ensures Reads(mem, p, Parsed([Wide32(3 + g * 0x1_0000)] + rest.insns, rest.complete))
  {
    assert [3, g] + Halves(mem, p + 2) == Halves(mem, p);
    assert Parcels(Wide32(3 + g * 0x1_0000)) == [3, g];
    ReadsCons(mem, p, p + 2, Wide32(3 + g * 0x1_0000), rest);
  }

  /** Nothing of the stream is lost. */
  lemma {:induction false} ParseReads(mem: seq<u32>, p: nat)
    requires p <= 2 * |mem|
    ensures Reads(mem, p, Parse(mem, p))
    decreases 2 * |mem| - p
  {
    if p == 2 * |mem| {
      assert Halves(mem, p) == [];
    } else if HalfAt(mem, p) != 3 {
      ParseReads(mem, p + 1);
      ReadsNarrow(mem, p, HalfAt(mem, p), Parse(mem, p + 1));
    } else if p + 1 == 2 * |mem| {
      assert Halves(mem, p) == [3];
    } else {
      ParseReads(mem, p + 2);
      ReadsWide(mem, p, HalfAt(mem, p + 1), Parse(mem, p + 2));
    }
  }

  /** Memory, word by word, from the instructions it holds. */
  lemma ParseCovers(mem: seq<u32>)
    ensures var r := Parse(mem, 0);
            var s := Flatten(r.insns) + (if r.complete then [] else [3]);
            && |s| == 2 * |mem|
            && (forall i :: 0 <= i < |mem| ==> mem[i] == s[2 * i] + s[2 * i + 1] * 0x1_0000)
            && (forall i :: 0 <= i < |r.insns| && r.insns[i].Narrow16? ==>
                  r.insns[i].slot < 0x1_0000 && r.insns[i].slot != 3)
            && (forall i :: 0 <= i < |r.insns| && r.insns[i].Wide32? ==> r.insns[i].slot % 0x1_0000 == 3)
  {
    ParseReads(mem, 0);
    var r := Parse(mem, 0);
    var s := Halves(mem, 0);
    forall i | 0 <= i < |mem| ensures mem[i] == s[2 * i] + s[2 * i + 1] * 0x1_0000 { WordIsHalves(mem, i); }
    forall i | 0 <= i < |r.insns| ensures Encoded(r.insns[i]) { }
  }

  /** The half-words determine the instructions, so the parse is the only reading of memory. */
  lemma {:induction false} ReadingUnique(a: seq<Insn>, b: seq<Insn>)
    requires forall i :: 0 <= i < |a| ==> Encoded(a[i])
    requires forall i :: 0 <= i < |b| ==> Encoded(b[i])
    requires Flatten(a) == Flatten(b)
    ensures a == b
    decreases |a|
  {
    if a != [] && b != [] {
      var p, q := Parcels(a[0]), Parcels(b[0]);
      assert Encoded(a[0]) && Encoded(b[0]);
      assert p[0] == Flatten(a)[0] == Flatten(b)[0] == q[0];
      SameHead(a[0], b[0], Flatten(a));
      assert Flatten(a)[|p|..] == Flatten(a[1..]) && Flatten(b)[|q|..] == Flatten(b[1..]);
      ReadingUnique(a[1..], b[1..]);
      assert a == [a[0]] + a[1..] && b == [b[0]] + b[1..];
    }
  }

  lemma SameHead(a: Insn, b: Insn, h: seq<int>)
    requires Encoded(a) && Encoded(b) && Parcels(a) <= h && Parcels(b) <= h
    ensures a == b
  {
    var p, q := Parcels(a), Parcels(b);
    assert p[0] == h[0] == q[0];
    if a.Wide32? && b.Wide32? { assert p[1] == h[1] == q[1]; }
  }

  // ---- the machine as a value ----

  datatype Machine = Machine(
    pc: u32, nextPc: u32, slot: u32, low: u16, high: u16, fetched: u32, reuse: bool, state: State)

  /** One tick, with the instruction it issues and the word address it reads, if any. */
  datatype Outcome = Outcome(tick: Tick, next: Machine, issued: seq<Insn>, addrs: seq<nat>)

  function Step(mem: seq<u32>, m: Machine): (o: Outcome)
  {
    match m.state
    case FetchWord =>
      if m.pc >= |mem| then Outcome(Halted, m, [], [])
      else
        var w := mem[m.pc];
        var f := m.(fetched := w, low := w % 0x1_0000, high := w / 0x1_0000);
        Outcome(Ticked,
                if f.low == 3 then f.(slot := w, reuse := false, state := Decode32)
                else f.(reuse := true, slot := f.low, state := Decode16),
                [], [m.pc])
    case FetchMore =>
      if m.nextPc >= |mem| then Outcome(OutOfRange, m, [], [])
      else
        var w := mem[m.nextPc];
        Outcome(Ticked,
                m.(fetched := w, slot := m.high + (w % 0x1_0000) * 0x1_0000, high := w / 0x1_0000,
                   reuse := true, state := Decode32),
                [], [m.nextPc])
    case Decode32 => Outcome(Ticked, m.(state := Exec, nextPc := Wrap(m.pc + 1)), [Wide32(m.slot)], [])
    case Decode16 => Outcome(Ticked, m.(state := Exec), [Narrow16(m.slot)], [])
    case Exec => Outcome(Ticked, m.(state := Prefetch), [], [])
    case Prefetch =>
      var n := m.(pc := m.nextPc);
      Outcome(Ticked,
              if m.reuse && m.high == 3 then n.(reuse := false, state := FetchMore, nextPc := Wrap(n.pc + 1))
              else if m.reuse then n.(state := Decode16, slot := m.high, reuse := false, nextPc := Wrap(n.pc + 1))
              else n.(state := FetchWord),
              [], [])
  }

  // ---- whole runs ----

  /** The machine and everything it has done. */
  datatype History = History(m: Machine, issued: seq<Insn>, addrs: seq<nat>, ticks: nat)

  predicate IsStart(m: Machine) { m.pc == 0 && m.nextPc == 0 && !m.reuse && m.state == FetchWord }

  function Advance(mem: seq<u32>, h: History): (r: History)
  {
    var o := Step(mem, h.m);
    History(o.next, h.issued + o.issued, h.addrs + o.addrs, if o.tick == Ticked then h.ticks + 1 else h.ticks)
  }

  function After(mem: seq<u32>, start: Machine, n: nat): (h: History)
  {
    if n == 0 then History(start, [], [], 0) else Advance(mem, After(mem, start, n - 1))
  }

  /** The half-word at which the first instruction not yet issued starts. */
  ghost function Position(m: Machine): (p: nat)
  {
    match m.state
    case FetchWord => 2 * m.pc
    case FetchMore => 2 * m.pc + 1
    case Decode16 => if m.reuse then 2 * m.pc else 2 * m.pc + 1
    case Decode32 => if m.reuse then 2 * m.pc + 1 else 2 * m.pc
    case _ => if m.reuse then 2 * m.nextPc + 1 else 2 * m.nextPc
  }

  /** The number of words read. */
  ghost function WordsRead(m: Machine): (w: nat)
  {
    match m.state
    case FetchWord => m.pc
    case FetchMore => m.pc + 1
    case Decode16 => m.pc + 1
    case Decode32 => if m.reuse then m.pc + 2 else m.pc + 1
    case _ => if m.reuse then m.nextPc + 1 else m.nextPc
  }

  /** What each state knows about memory. */
  ghost predicate Coherent(mem: seq<u32>, m: Machine)
  {
    match m.state
    case FetchWord => !m.reuse && m.nextPc == m.pc <= |mem|
    case FetchMore => !m.reuse && m.pc < |mem| && m.nextPc == m.pc + 1 && m.high == 3 == HalfAt(mem, 2 * m.pc + 1)
    case Decode16 =>
      && m.pc < |mem|
      && (if m.reuse then m.nextPc == m.pc && m.high == HalfAt(mem, 2 * m.pc + 1) else m.nextPc == m.pc + 1)
      && m.slot == HalfAt(mem, Position(m)) != 3
    case Decode32 =>
      && m.pc < |mem| && HalfAt(mem, Position(m)) == 3
      && (m.reuse ==> m.pc + 1 < |mem| && m.high == HalfAt(mem, 2 * m.pc + 3))
      && m.slot == 3 + HalfAt(mem, Position(m) + 1) * 0x1_0000
    case _ =>
      if m.reuse then m.nextPc < |mem| && m.high == HalfAt(mem, 2 * m.nextPc + 1) else m.nextPc <= |mem|
  }

  /** 0, 1, 2, ... */
  function UpTo(n: nat): (s: seq<nat>)
    ensures |s| == n && forall i :: 0 <= i < n ==> s[i] == i
  {
    seq(n, i => i)
  }

  /** Ticks spent on the instruction in flight that are not in 3 per issue plus 1 per word. */
  ghost function Lag(s: State): (l: nat)
  {
    match s
    case Exec => 2
    case Prefetch => 1
    case _ => 0
  }

  /** The instructions issued are the parse of the half-words passed, the words read are
      0, 1, 2, ... once each, and the tick count follows. */
  ghost predicate Inv(mem: seq<u32>, h: History)
  {
    && Coherent(mem, h.m)
    && h.issued + Parse(mem, Position(h.m)).insns == Parse(mem, 0).insns
    && Parse(mem, Position(h.m)).complete == Parse(mem, 0).complete
    && h.addrs == UpTo(WordsRead(h.m))
    && h.ticks + Lag(h.m.state) == 3 * |h.issued| + |h.addrs|
  }

  lemma CoherentFetch(mem: seq<u32>, m: Machine)
    requires |mem| < TWO32 && Coherent(mem, m) && Step(mem, m).tick == Ticked
    requires m.state == FetchWord || m.state == FetchMore
    ensures Coherent(mem, Step(mem, m).next)
  {
    if m.state == FetchWord {
      assert HalfAt(mem, 2 * m.pc) == mem[m.pc] % 0x1_0000 && HalfAt(mem, 2 * m.pc + 1) == mem[m.pc] / 0x1_0000;
    } else {
      var w := mem[m.nextPc];
      assert HalfAt(mem, 2 * m.pc + 2) == w % 0x1_0000 && HalfAt(mem, 2 * m.pc + 3) == w / 0x1_0000;
    }
  }

  lemma CoherentStep(mem: seq<u32>, m: Machine)
    requires |mem| < TWO32 && Coherent(mem, m) && Step(mem, m).tick == Ticked
    ensures Coherent(mem, Step(mem, m).next)
  {
    if m.state == FetchWord || m.state == FetchMore { CoherentFetch(mem, m); }
  }

  /** Going from half-word p to q issues exactly what stands there. */
  ghost predicate Passes(mem: seq<u32>, p: nat, q: nat, issued: seq<Insn>)
  {
    || (q == p && issued == [])
    || (q == p + 1 <= 2 * |mem| && HalfAt(mem, p) != 3 && issued == [Narrow16(HalfAt(mem, p))])
    || (q == p + 2 <= 2 * |mem| && HalfAt(mem, p) == 3 && issued == [Wide32(3 + HalfAt(mem, p + 1) * 0x1_0000)])
  }

  lemma PassesParse(mem: seq<u32>, p: nat, q: nat, issued: seq<Insn>)
    requires Passes(mem, p, q, issued)
    ensures issued + Parse(mem, q).insns == Parse(mem, p).insns
    ensures Parse(mem, q).complete == Parse(mem, p).complete
  {
  }

  lemma StepPasses(mem: seq<u32>, m: Machine)
    requires |mem| < TWO32 && Coherent(mem, m) && Step(mem, m).tick == Ticked
    ensures Passes(mem, Position(m), Position(Step(mem, m).next), Step(mem, m).issued)
  {
  }

  lemma ReadsStep(mem: seq<u32>, m: Machine)
    requires |mem| < TWO32 && Coherent(mem, m) && Step(mem, m).tick == Ticked
    ensures UpTo(WordsRead(m)) + Step(mem, m).addrs == UpTo(WordsRead(Step(mem, m).next))
  {
  }

  /** The address a tick records is that of the word it loads. */
  lemma ReadsLoad(mem: seq<u32>, m: Machine)
    ensures var o := Step(mem, m);
            && |o.addrs| <= 1
            && (|o.addrs| == 1 ==> o.addrs[0] < |mem| && o.next.fetched == mem[o.addrs[0]])
            && (|o.addrs| == 0 ==> o.next.fetched == m.fetched)
  {
  }

  lemma TickStep(mem: seq<u32>, m: Machine)
    requires Step(mem, m).tick == Ticked
    ensures var o := Step(mem, m); 1 + Lag(o.next.state) == 3 * |o.issued| + |o.addrs| + Lag(m.state)
  {
  }

  /** What a tick issues is taken off the front of what remains to be parsed. */
  lemma ParseStep(mem: seq<u32>, m: Machine)
    requires |mem| < TWO32 && Coherent(mem, m) && Step(mem, m).tick == Ticked
    ensures var o := Step(mem, m);
            var after := Parse(mem, Position(o.next));
            Parse(mem, Position(m)) == Parsed(o.issued + after.insns, after.complete)
  {
    StepPasses(mem, m);
    PassesParse(mem, Position(m), Position(Step(mem, m).next), Step(mem, m).issued);
  }

  lemma InvStep(mem: seq<u32>, h: History)
    requires |mem| < TWO32 && Inv(mem, h) && Step(mem, h.m).tick == Ticked
    ensures Inv(mem, Advance(mem, h))
  {
    var o := Step(mem, h.m);
    assert Coherent(mem, o.next) by { CoherentStep(mem, h.m); }
    ParseStep(mem, h.m);
    var rest := Parse(mem, Position(o.next)).insns;
    assert (h.issued + o.issued) + rest == h.issued + (o.issued + rest);
    ReadsStep(mem, h.m);
    TickStep(mem, h.m);
  }

  /** A tick that does not go on: at the end of memory, or reading past it. */
  lemma StopMeans(mem: seq<u32>, m: Machine)
    requires |mem| < TWO32 && Coherent(mem, m) && Step(mem, m).tick != Ticked
    ensures Parse(mem, Position(m)) == Parsed([], Step(mem, m).tick == Halted)
    ensures WordsRead(m) == |mem| && Lag(m.state) == 0
    ensures Step(mem, m).next == m && Step(mem, m).issued == [] && Step(mem, m).addrs == []
  {
  }

  /** Length of the run: three ticks for each instruction and one for each word. */
  function RunLength(mem: seq<u32>): (n: nat) { 3 * |Parse(mem, 0).insns| + |mem| }

  lemma WithinRun(mem: seq<u32>, h: History)
    requires |mem| < TWO32 && Inv(mem, h)
    ensures h.ticks <= RunLength(mem)
  {
    assert WordsRead(h.m) <= |mem|;
  }

  /** The machine stops exactly when RunLength ticks have passed. */
  lemma StopsAtEnd(mem: seq<u32>, h: History)
    requires |mem| < TWO32 && Inv(mem, h)
    ensures Step(mem, h.m).tick == Ticked <==> h.ticks < RunLength(mem)
    ensures Step(mem, h.m).tick != Ticked ==> Advance(mem, h) == h
  {
    if Step(mem, h.m).tick == Ticked {
      InvStep(mem, h);
      WithinRun(mem, Advance(mem, h));
    } else {
      StopMeans(mem, h.m);
      assert h.issued + [] == h.issued && h.addrs + [] == h.addrs;
    }
  }

  /** Every state of every run satisfies the invariant. */
  lemma {:induction false} InvAlways(mem: seq<u32>, start: Machine, n: nat)
    requires |mem| < TWO32 && IsStart(start)
    ensures Inv(mem, After(mem, start, n))
    decreases n
  {
    if n == 0 {
      assert [] + Parse(mem, 0).insns == Parse(mem, 0).insns;
    } else {
      var h := After(mem, start, n - 1);
      InvAlways(mem, start, n - 1);
      if Step(mem, h.m).tick == Ticked { InvStep(mem, h); } else { StopsAtEnd(mem, h); }
    }
  }

  lemma {:induction false} TicksOfRun(mem: seq<u32>, start: Machine, n: nat)
    requires |mem| < TWO32 && IsStart(start)
    ensures After(mem, start, n).ticks == if n <= RunLength(mem) then n else RunLength(mem)
    decreases n
  {
    if n != 0 {
      TicksOfRun(mem, start, n - 1);
      InvAlways(mem, start, n - 1);
      StopsAtEnd(mem, After(mem, start, n - 1));
    }
  }

  lemma RunEnds(mem: seq<u32>, start: Machine)
    requires |mem| < TWO32 && IsStart(start)
    ensures var h := After(mem, start, RunLength(mem));
      && h.issued == Parse(mem, 0).insns && h.addrs == UpTo(|mem|) && h.ticks == RunLength(mem)
      && Step(mem, h.m).tick == (if Parse(mem, 0).complete then Halted else OutOfRange)
  {
    var h := After(mem, start, RunLength(mem));
    InvAlways(mem, start, RunLength(mem));
    TicksOfRun(mem, start, RunLength(mem));
    StopsAtEnd(mem, h);
    StopMeans(mem, h.m);
    assert h.issued + [] == h.issued;
  }

  /** The whole run refines the left-to-right parse: every instruction of the stream is issued
      once and in order with its parcels, so that the half-words issued put memory together again,
      every word is read once and in order, and the run takes exactly 3 I + W ticks. It halts if
      the last instruction is complete, and reads past the end of memory if and only if it is not. */
  lemma RunRefinesParse(mem: seq<u32>, start: Machine)
    requires |mem| < TWO32 && IsStart(start)
    ensures var h := After(mem, start, RunLength(mem));
      && h.issued == Parse(mem, 0).insns
      && h.ticks == 3 * |h.issued| + |mem|
      && Step(mem, h.m).tick == (if Parse(mem, 0).complete then Halted else OutOfRange)
    ensures var h := After(mem, start, RunLength(mem));
      |h.addrs| == |mem| && forall i :: 0 <= i < |mem| ==> h.addrs[i] == i
    ensures var h := After(mem, start, RunLength(mem));
      var s := Flatten(h.issued) + (if Step(mem, h.m).tick == Halted then [] else [3]);
      && |s| == 2 * |mem|
      && (forall i :: 0 <= i < |mem| ==> mem[i] == s[2 * i] + s[2 * i + 1] * 0x1_0000)
      && (forall i :: 0 <= i < |h.issued| && h.issued[i].Narrow16? ==>
            h.issued[i].slot < 0x1_0000 && h.issued[i].slot != 3)
      && (forall i :: 0 <= i < |h.issued| && h.issued[i].Wide32? ==> h.issued[i].slot % 0x1_0000 == 3)
    ensures forall n: nat :: n < RunLength(mem) ==> Step(mem, After(mem, start, n).m).tick == Ticked
  {
    ParseCovers(mem);
    RunEnds(mem, start);
    forall n: nat | n < RunLength(mem) ensures Step(mem, After(mem, start, n).m).tick == Ticked {
      InvAlways(mem, start, n);
      TicksOfRun(mem, start, n);
      StopsAtEnd(mem, After(mem, start, n));
    }
  }

  // ---- the class ----

  class CpuContext {
    var pc: u32
    var nextPc: u32
    var decodeSlot: u32
    var parcelLow: u16
    var parcelHigh: u16
    var fetchedData: u32
    var reuseHigh: bool
    var state: State

    /** What has been issued and read so far, and in how many ticks. */
    ghost var issued: seq<Insn>
    ghost var addrs: seq<nat>
    ghost var ticks: nat

    ghost function View(): (m: Machine)
      reads this
    {
      Machine(pc, nextPc, decodeSlot, parcelLow, parcelHigh, fetchedData, reuseHigh, state)
    }

    ghost function Past(): (h: History)
      reads this
    {
      History(View(), issued, addrs, ticks)
    }

    constructor ()
      ensures IsStart(View()) && issued == [] && addrs == [] && ticks == 0
    {
      pc, nextPc, reuseHigh, state := 0, 0, false, FetchWord;
      issued, addrs, ticks := [], [], 0;
    }

    method DoDecode32()
      requires state == Decode32
      modifies this
      ensures forall mem :: Past() == Advance(mem, old(Past()))
    {
      state := Exec;
      issued := issued + [Wide32(decodeSlot)];
      nextPc := Wrap(pc + 1);
      ticks := ticks + 1;
      assert addrs + [] == addrs;
    }

    method DoDecode16()
      requires state == Decode16
      modifies this
      ensures forall mem :: Past() == Advance(mem, old(Past()))
    {
      state := Exec;
      issued := issued + [Narrow16(decodeSlot)];
      ticks := ticks + 1;
      assert addrs + [] == addrs;
    }

    method DoFetch(mem: seq<u32>)
      requires state == FetchWord && pc < |mem|
      modifies this
      ensures Past() == Advance(mem, old(Past()))
      ensures fetchedData == mem[old(pc)] == parcelLow + parcelHigh * 0x1_0000
      ensures addrs == old(addrs) + [old(pc)]
      ensures if parcelLow == 3 then state == Decode32 && decodeSlot == mem[old(pc)] && !reuseHigh
              else state == Decode16 && decodeSlot == parcelLow && reuseHigh
    {
      fetchedData := mem[pc];
      addrs := addrs + [pc];
      parcelLow := LowHalf(fetchedData);
      parcelHigh := HighHalf(fetchedData);
      if parcelLow == 0x3 {
        decodeSlot := fetchedData;
        reuseHigh := false;
        state := Decode32;
      } else {
        reuseHigh := true;
        decodeSlot := parcelLow;
        state := Decode16;
      }
      ticks := ticks + 1;
      assert issued + [] == issued;
    }

    method DoMore(mem: seq<u32>) returns (t: Tick)
      requires state == FetchMore
      modifies this
      ensures t == Step(mem, old(View())).tick
      ensures Past() == Advance(mem, old(Past()))
      ensures t == OutOfRange <==> old(nextPc) >= |mem|
      ensures t == Ticked ==>
        && fetchedData == mem[old(nextPc)] && addrs == old(addrs) + [old(nextPc)]
        && state == Decode32 && reuseHigh
        && exists low: u32 :: low < 0x1_0000 && fetchedData == low + parcelHigh * 0x1_0000
                           && decodeSlot == old(parcelHigh) + low * 0x1_0000
    {
      assert issued + [] == issued && addrs + [] == addrs;
      if nextPc >= |mem| { return OutOfRange; }    // mem.at throws
      fetchedData := mem[nextPc];
      addrs := addrs + [nextPc];
      decodeSlot := HalvesJoined(parcelHigh, LowHalf(fetchedData));
      parcelHigh := HighHalf(fetchedData);
      reuseHigh := true;
      state := Decode32;
      ticks := ticks + 1;
      t := Ticked;
    }

    method DoExec()
      requires state == Exec
      modifies this
      ensures forall mem :: Past() == Advance(mem, old(Past()))
    {
      state := Prefetch;
      ticks := ticks + 1;
      assert issued + [] == issued && addrs + [] == addrs;
    }

    method DoPrefetch()
      requires state == Prefetch
      modifies this
      ensures forall mem :: Past() == Advance(mem, old(Past()))
    {
      pc := nextPc;
      if reuseHigh && parcelHigh == 0x3 {
        reuseHigh := false;
        state := FetchMore;
        nextPc := Wrap(pc + 1);
      } else if reuseHigh {
        state := Decode16;
        decodeSlot := parcelHigh;
        reuseHigh := false;
        nextPc := Wrap(pc + 1);
      } else {
        state := FetchWord;
      }
      ticks := ticks + 1;
      assert issued + [] == issued && addrs + [] == addrs;
    }

    /** CpuContext::exec: one tick. */
    method ExecTick(mem: seq<u32>) returns (t: Tick)
      modifies this
      ensures t == Step(mem, old(View())).tick
      ensures Past() == Advance(mem, old(Past()))
    {
      t := Ticked;
      match state
      case FetchWord =>
        assert issued + [] == issued && addrs + [] == addrs;
        if pc >= |mem| { return Halted; }
        DoFetch(mem);
      case FetchMore => t := DoMore(mem);
      case Exec => DoExec();
      case Prefetch => DoPrefetch();
      case Decode16 => DoDecode16();
      case Decode32 => DoDecode32();
    }

    /** The loop of main, without its cap on ticks: run until a tick does not go on. */
    method Run(mem: seq<u32>) returns (t: Tick)
      requires |mem| < TWO32
      requires IsStart(View()) && issued == [] && addrs == [] && ticks == 0
      modifies this
      ensures t == if Parse(mem, 0).complete then Halted else OutOfRange
      ensures issued == Parse(mem, 0).insns && ticks == 3 * |issued| + |mem|
      ensures |addrs| == |mem| && forall i :: 0 <= i < |mem| ==> addrs[i] == i
      ensures var s := Flatten(issued) + (if t == Halted then [] else [3]);
        && |s| == 2 * |mem|
        && (forall i :: 0 <= i < |mem| ==> mem[i] == s[2 * i] + s[2 * i + 1] * 0x1_0000)
      ensures forall i :: 0 <= i < |issued| && issued[i].Narrow16? ==> issued[i].slot < 0x1_0000 && issued[i].slot != 3
      ensures forall i :: 0 <= i < |issued| && issued[i].Wide32? ==> issued[i].slot % 0x1_0000 == 3
    {
      ParseCovers(mem);
      assert [] + Parse(mem, 0).insns == Parse(mem, 0).insns;
      t := Ticked;
      ghost var h := Past();
      while t == Ticked
        invariant Inv(mem, Past()) && ticks <= RunLength(mem)
        invariant t != Ticked ==> t == Step(mem, View()).tick && ticks == RunLength(mem)
        decreases RunLength(mem) - ticks, if t == Ticked then 1 else 0
      {
        h := Past();
        StopsAtEnd(mem, h);
        if Step(mem, h.m).tick == Ticked { InvStep(mem, h); }
        t := ExecTick(mem);
      }
      StopMeans(mem, View());
      assert issued + [] == issued;
    }
  }
}
