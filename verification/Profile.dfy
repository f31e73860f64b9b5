/** Folding an execution trace into call stacks (`qed-analysis/src/profile.rs`), against a machine
    that keeps the stack itself. */
module Profile {
  import opened Words

  const EXIT: u8 := 0x95
  const CALL_IMM: u8 := 0x85
  const CALL_REG: u8 := 0x8d

  type Naming = nat -> string

  predicate IsExit(ops: seq<u8>, pc: nat) {
    pc < |ops| && ops[pc] == EXIT
  }

  predicate IsCall(ops: seq<u8>, pc: nat) {
    pc < |ops| && (ops[pc] == CALL_IMM || ops[pc] == CALL_REG)
  }

  // ----- the reconstructed stack -----

  /** The stack after the step at `pc`, from the next program counter alone: an exit pops, but
      never the root; a call pushes unless the trace continues at `pc + 1`. */
  function NextStack(stack: seq<string>, ops: seq<u8>, nameOf: Naming, pc: nat, next: Option<nat>): seq<string> {
    if IsExit(ops, pc) then (if |stack| > 1 then stack[..|stack| - 1] else stack)
    else if IsCall(ops, pc) && next.Some? && next.value != pc + 1 then stack + [nameOf(next.value)]
    else stack
  }

  function Following(trace: seq<nat>, i: nat): Option<nat> {
    if i + 1 < |trace| then Some(trace[i + 1]) else None
  }

  /** The stack charged for step `i`. */
  function StackAt(trace: seq<nat>, ops: seq<u8>, nameOf: Naming, i: nat): seq<string>
    requires 0 < |trace| && i <= |trace|
  {
    if i == 0 then [nameOf(trace[0])]
    else NextStack(StackAt(trace, ops, nameOf, i - 1), ops, nameOf, trace[i - 1], Following(trace, i - 1))
  }

  function Join(stack: seq<string>): string {
    if |stack| == 0 then ""
    else if |stack| == 1 then stack[0]
    else stack[0] + ";" + Join(stack[1..])
  }

  /** One entry per step: the stack line it is charged to. */
  ghost function Charges(trace: seq<nat>, ops: seq<u8>, nameOf: Naming, n: nat): (m: multiset<string>)
    requires n <= |trace|
    ensures |m| == n
  {
    if n == 0 then multiset{}
    else Charges(trace, ops, nameOf, n - 1) + multiset{Join(StackAt(trace, ops, nameOf, n - 1))}
  }

  // ----- folding -----

  /** The map counts what the multiset holds. */
  ghost predicate Counts(folded: map<string, nat>, m: multiset<string>) {
    (forall k :: k in folded ==> folded[k] == m[k] > 0) && (forall k :: k in m ==> k in folded)
  }

  method Fold(trace: seq<nat>, ops: seq<u8>, nameOf: Naming) returns (folded: map<string, nat>)
    requires |trace| > 0
    ensures Counts(folded, Charges(trace, ops, nameOf, |trace|))
  {
    hide Join, NextStack, Counts;
    folded := map[];
    assert Counts(folded, multiset{}) by { NothingCounted(); }
    var stack := [nameOf(trace[0])];
    var i := 0;
    while i < |trace|
      invariant i <= |trace| && stack == StackAt(trace, ops, nameOf, i)
      invariant Counts(folded, Charges(trace, ops, nameOf, i))
    {
      var line := Join(stack);
      folded := Bump(folded, line, Charges(trace, ops, nameOf, i));
      stack := NextStack(stack, ops, nameOf, trace[i], Following(trace, i));
      i := i + 1;
    }
  }

  lemma NothingCounted()
    ensures Counts(map[], multiset{})
  {
  }

  /** `*folded.entry(line).or_insert(0) += 1`. */
  method Bump(folded: map<string, nat>, line: string, ghost m: multiset<string>) returns (r: map<string, nat>)
    requires Counts(folded, m)
    ensures Counts(r, m + multiset{line})
  {
    r := folded[line := (if line in folded then folded[line] else 0) + 1];
  }

  type Line = (string, nat)

  predicate TextBelow(a: string, b: string) {
    |b| > 0 && (|a| == 0 || a[0] < b[0] || (a[0] == b[0] && TextBelow(a[1..], b[1..])))
  }

  /** Most visited first, then by name. */
  predicate Before(a: Line, b: Line) {
    a.1 > b.1 || (a.1 == b.1 && TextBelow(a.0, b.0))
  }

  lemma {:induction false} TextTrichotomy(a: string, b: string)
    ensures a == b || TextBelow(a, b) || TextBelow(b, a)
  {
    if |a| > 0 && |b| > 0 && a[0] == b[0] {
      TextTrichotomy(a[1..], b[1..]);
      if a[1..] == b[1..] {
        assert a == [a[0]] + a[1..] && b == [b[0]] + b[1..];
      }
    }
  }

  lemma {:induction false} TextTransitive(a: string, b: string, c: string)
    requires TextBelow(a, b) && TextBelow(b, c)
    ensures TextBelow(a, c)
  {
    if |a| > 0 && a[0] == b[0] == c[0] {
      TextTransitive(a[1..], b[1..], c[1..]);
    }
  }

  ghost predicate Sorted(out: seq<Line>) {
    forall i, j :: 0 <= i < j < |out| ==> Before(out[i], out[j])
  }

  function Total(out: seq<Line>): nat {
    if |out| == 0 then 0 else Total(out[..|out| - 1]) + out[|out| - 1].1
  }

  lemma {:induction false} TotalSplit(a: seq<Line>, b: seq<Line>)
    ensures Total(a + b) == Total(a) + Total(b)
  {
    if |b| == 0 {
      assert a + b == a;
    } else {
      TotalSplit(a, b[..|b| - 1]);
      assert (a + b)[..|a + b| - 1] == a + b[..|b| - 1];
    }
  }

  /** Puts a line at its place in a sorted list. */
  method Insert(out0: seq<Line>, line: Line) returns (out: seq<Line>)
    requires Sorted(out0) && forall i :: 0 <= i < |out0| ==> out0[i].0 != line.0
    ensures Sorted(out) && multiset(out) == multiset(out0) + multiset{line}
    ensures Total(out) == Total(out0) + line.1
  {
    hide TextBelow, Total;
    var i := 0;
    while i < |out0| && Before(out0[i], line)
      invariant i <= |out0| && forall k :: 0 <= k < i ==> Before(out0[k], line)
    {
      i := i + 1;
    }
    var head, tail := out0[..i], out0[i..];
    assert out0 == head + tail;
    forall k | 0 <= k < |tail|
      ensures Before(line, tail[k])
    {
      PlaceFound(out0, i, i + k, line);
    }
    hide Before, Sorted;
    out := head + [line] + tail;
    SortedAround(out0, i, line);
    TotalInserted(head, line, tail);
  }

  lemma SortedAround(out: seq<Line>, n: nat, line: Line)
    requires n <= |out| && Sorted(out)
    requires forall i :: 0 <= i < n ==> Before(out[i], line)
    requires forall i :: 0 <= i < |out[n..]| ==> Before(line, out[n..][i])
    ensures Sorted(out[..n] + [line] + out[n..])
  {
    hide Before;
    var r := out[..n] + [line] + out[n..];
    forall i, j | 0 <= i < j < |r|
      ensures Before(r[i], r[j])
    {
      if i == n {
        assert r[j] == out[n..][j - n - 1];
      } else if i < n && n < j {
        assert r[i] == out[i] && r[j] == out[j - 1];
      } else if n < i {
        assert r[i] == out[i - 1] && r[j] == out[j - 1];
      }
    }
  }

  lemma PlaceFound(out: seq<Line>, i: nat, k: nat, line: Line)
    requires Sorted(out) && i <= k < |out| && !Before(out[i], line) && out[i].0 != line.0
    ensures Before(line, out[k])
  {
    hide TextBelow;
    TextTrichotomy(line.0, out[i].0);
    if i < k {
      assert Before(out[i], out[k]);
      if line.1 == out[i].1 == out[k].1 {
        TextTransitive(line.0, out[i].0, out[k].0);
      }
    }
  }

  lemma TotalInserted(head: seq<Line>, line: Line, tail: seq<Line>)
    ensures Total(head + [line] + tail) == Total(head + tail) + line.1
  {
    TotalSplit(head + [line], tail);
    TotalSplit(head, [line]);
    TotalSplit(head, tail);
    assert [line][..0] == [];
  }

  /** The folded profile: every stack line once, with the number of steps charged to it, most
      visited first; the weights add up to the length of the trace. */
  method FoldTrace(trace: seq<nat>, ops: seq<u8>, nameOf: Naming) returns (out: seq<Line>)
    ensures Total(out) == |trace| && Sorted(out)
    ensures forall k, w :: (k, w) in out <==> w == Charges(trace, ops, nameOf, |trace|)[k] > 0
  {
    if |trace| == 0 {
      return [];
    }
    hide Sorted, Total, StackAt, Join;
    var folded := Fold(trace, ops, nameOf);
    out := SortLines(folded, Charges(trace, ops, nameOf, |trace|));
  }

  method SortLines(folded: map<string, nat>, ghost all: multiset<string>) returns (out: seq<Line>)
    requires Counts(folded, all)
    ensures Total(out) == |all| && Sorted(out)
    ensures forall k, w :: (k, w) in out <==> k in folded && w == folded[k]
  {
    NoTotal();
    hide Before, Total;
    out := [];
    var left := folded.Keys;
    ghost var rest := all;
    while left != {}
      invariant left <= folded.Keys && Sorted(out)
      invariant forall k, w :: (k, w) in out <==> k in folded && k !in left && w == folded[k]
      invariant forall k :: rest[k] == if k in left then all[k] else 0
      invariant Total(out) + |rest| == |all|
      decreases |left|
    {
      var k :| k in left;
      ghost var was := out;
      out := Insert(out, (k, folded[k]));
      InsertedLines(was, (k, folded[k]), out);
      left := left - {k};
      rest := rest[k := 0];
    }
    assert rest == multiset{} by {
      assert forall k :: rest[k] == 0;
    }
  }

  lemma InsertedLines(before: seq<Line>, line: Line, out: seq<Line>)
    requires multiset(out) == multiset(before) + multiset{line}
    ensures forall l :: l in out <==> l in before || l == line
  {
    assert forall l :: l in out <==> l in multiset(out);
    assert forall l :: l in before <==> l in multiset(before);
  }

  lemma NoTotal()
    ensures Total([]) == 0
  {
  }

  // ----- the machine -----

  /** A frame: where its function was entered, and where its caller continues. */
  datatype Frame = Frame(entry: nat, back: nat)

  datatype State = State(pc: nat, frames: seq<Frame>)

  /** A local call: the callee's frame is pushed. */
  ghost predicate LocalCall(ops: seq<u8>, s: State, t: State) {
    IsCall(ops, s.pc) && t.frames == s.frames + [Frame(t.pc, s.pc + 1)]
  }

  /** One step of execution: a call enters a function or is a system call that returns to the next
      instruction, an exit returns to the caller, anything else moves within the function. The
      outermost exit has no successor. */
  ghost predicate Step(ops: seq<u8>, s: State, t: State) {
    s.pc < |ops|
    && if IsExit(ops, s.pc) then
         |s.frames| > 1 && t == State(s.frames[|s.frames| - 1].back, s.frames[..|s.frames| - 1])
       else if IsCall(ops, s.pc) then
         LocalCall(ops, s, t) || t == State(s.pc + 1, s.frames)
       else t.frames == s.frames
  }

  ghost predicate Run(ops: seq<u8>, run: seq<State>) {
    |run| > 0 && |run[0].frames| == 1 && run[0].frames[0].entry == run[0].pc
    && forall i :: 0 <= i < |run| - 1 ==> Step(ops, run[i], run[i + 1])
  }

  function Pcs(run: seq<State>): (pcs: seq<nat>)
    ensures |pcs| == |run|
  {
    seq(|run|, i requires 0 <= i < |run| => run[i].pc)
  }

  /** The machine's call stack, by function name. */
  function Names(frames: seq<Frame>, nameOf: Naming): (names: seq<string>)
    ensures |names| == |frames|
  {
    seq(|frames|, i requires 0 <= i < |frames| => nameOf(frames[i].entry))
  }

  /** Step `i` is a local call to the very next instruction, which looks like a system call. */
  ghost predicate CallsNext(ops: seq<u8>, run: seq<State>, i: nat)
    requires i + 1 < |run|
  {
    LocalCall(ops, run[i], run[i + 1]) && run[i + 1].pc == run[i].pc + 1
  }

  lemma {:induction false} FramesStay(ops: seq<u8>, run: seq<State>, i: nat)
    requires Run(ops, run) && i < |run|
    ensures |run[i].frames| >= 1
  {
    if i > 0 {
      FramesStay(ops, run, i - 1);
      assert Step(ops, run[i - 1], run[i - 1 + 1]);
    }
  }

  lemma StepNames(ops: seq<u8>, s: State, t: State, nameOf: Naming)
    requires Step(ops, s, t) && |s.frames| >= 1 && !(LocalCall(ops, s, t) && t.pc == s.pc + 1)
    ensures NextStack(Names(s.frames, nameOf), ops, nameOf, s.pc, Some(t.pc)) == Names(t.frames, nameOf)
  {
  }

  /** The stack charged at a step is the machine's own call stack, if no earlier local call went
      to the next instruction. */
  lemma {:induction false} ChargedStackIsMachineStack(ops: seq<u8>, run: seq<State>, nameOf: Naming, i: nat)
    requires Run(ops, run) && i < |run|
    requires forall k :: 0 <= k < i ==> !CallsNext(ops, run, k)
    ensures StackAt(Pcs(run), ops, nameOf, i) == Names(run[i].frames, nameOf)
  {
    hide NextStack, Step;
    if i > 0 {
      ChargedStackIsMachineStack(ops, run, nameOf, i - 1);
      FramesStay(ops, run, i - 1);
      assert Step(ops, run[i - 1], run[i - 1 + 1]);
      assert !CallsNext(ops, run, i - 1);
      StepNames(ops, run[i - 1], run[i], nameOf);
      assert Following(Pcs(run), i - 1) == Some(run[i].pc);
    }
  }

  /** Exactly then: the charged depth is the machine's throughout a run if and only if no local
      call of the run goes to the next instruction. */
  lemma DepthsAgreeIff(ops: seq<u8>, run: seq<State>, nameOf: Naming)
    requires Run(ops, run)
    ensures (forall i :: 0 <= i < |run| ==> |StackAt(Pcs(run), ops, nameOf, i)| == |run[i].frames|)
            <==> forall k :: 0 <= k < |run| - 1 ==> !CallsNext(ops, run, k)
  {
    hide StackAt, Step, LocalCall;
    if forall k :: 0 <= k < |run| - 1 ==> !CallsNext(ops, run, k) {
      forall i | 0 <= i < |run|
        ensures |StackAt(Pcs(run), ops, nameOf, i)| == |run[i].frames|
      {
        ChargedStackIsMachineStack(ops, run, nameOf, i);
      }
    } else {
      var k :| 0 <= k < |run| - 1 && CallsNext(ops, run, k);
      CallNextUncharged(ops, run, nameOf, k);
    }
  }

  lemma CallNextUncharged(ops: seq<u8>, run: seq<State>, nameOf: Naming, k: nat)
    requires Run(ops, run) && k + 1 < |run| && CallsNext(ops, run, k)
    ensures |StackAt(Pcs(run), ops, nameOf, k + 1)| != |run[k + 1].frames|
            || |StackAt(Pcs(run), ops, nameOf, k)| != |run[k].frames|
  {
    hide Step;
    assert Following(Pcs(run), k) == Some(run[k + 1].pc);
    assert StackAt(Pcs(run), ops, nameOf, k + 1) == StackAt(Pcs(run), ops, nameOf, k);
  }

  /** Such a call is possible: its callee's steps are charged to the caller. */
  lemma CallNextExists()
    ensures var ops, run := [CALL_IMM, EXIT], [State(0, [Frame(0, 0)]), State(1, [Frame(0, 0), Frame(1, 1)])];
            Run(ops, run) && CallsNext(ops, run, 0)
  {
  }
}
