// The peephole rewriter over textual instruction lists: two five- and
// seven-instruction windows are recognised and folded into one stub each,
// and the two helpers that issue those windows as gates on a register.

module Patterns {
  import opened ComplexNumbers
  import opened Bits
  import opened Wrappers
  import opened GateKernels
  import opened PairSwaps
  import opened OpDecoding
  import opened DenseWavefunction
  import opened Memory

  /** What a matcher hands back: the register and the two qubit fields. */
  datatype Stub = Stub(reg: string, q0: string, q1: string)

  /** The five instructions `match_qft2` recognises. */
  function Qft2Ops(reg: string, q0: string, q1: string): seq<seq<string>> {
    [["H", reg, q1], ["CNOT", reg, q1, reg, q0], ["S", reg, q0], ["H", reg, q0], ["SWAP", reg, q0, reg, q1]]
  }

  /** The seven instructions `match_grover2` recognises. */
  function Grover2Ops(reg: string, q0: string, q1: string): seq<seq<string>> {
    [["H", reg, q0], ["H", reg, q1], ["CNOT", reg, q1, reg, q0], ["Z", reg, q0],
     ["CNOT", reg, q1, reg, q0], ["H", reg, q0], ["H", reg, q1]]
  }

  /** `match_qft2(ops, pos, ...)`: the names and sizes first, then the register
      of every operand, then the qubit roles. */
  function MatchQft2(ops: seq<seq<string>>, pos: nat): (r: Option<Stub>)
    ensures r.Some? ==> pos + 5 <= |ops|
  {
    if pos + 5 > |ops| then None
    else
      var a, b, c, d, e := ops[pos], ops[pos + 1], ops[pos + 2], ops[pos + 3], ops[pos + 4];
      if |a| == 3 && a[0] == "H" && |b| == 5 && b[0] == "CNOT" && |c| == 3 && c[0] == "S" &&
         |d| == 3 && d[0] == "H" && |e| == 5 && e[0] == "SWAP" then
        var reg := a[1];
        if b[1] == reg && b[3] == reg && c[1] == reg && d[1] == reg && e[1] == reg && e[3] == reg then
          var q1, q0 := a[2], c[2];
          if b[2] == q1 && b[4] == q0 && d[2] == q0 && e[2] == q0 && e[4] == q1 then
            Some(Stub(reg, q0, q1))
          else None
        else None
      else None
  }

  /** `match_grover2(ops, pos, ...)`. */
  function MatchGrover2(ops: seq<seq<string>>, pos: nat): (r: Option<Stub>)
    ensures r.Some? ==> pos + 7 <= |ops|
  {
    if pos + 7 > |ops| then None
    else
      var a, b, c, d := ops[pos], ops[pos + 1], ops[pos + 2], ops[pos + 3];
      var e, f, g := ops[pos + 4], ops[pos + 5], ops[pos + 6];
      if |a| == 3 && a[0] == "H" && |b| == 3 && b[0] == "H" && |c| == 5 && c[0] == "CNOT" &&
         |d| == 3 && d[0] == "Z" && |e| == 5 && e[0] == "CNOT" && |f| == 3 && f[0] == "H" &&
         |g| == 3 && g[0] == "H" then
        var reg := a[1];
        if b[1] == reg && c[1] == reg && c[3] == reg && d[1] == reg && e[1] == reg && e[3] == reg &&
           f[1] == reg && g[1] == reg then
          var q0, q1 := a[2], b[2];
          if c[2] == q1 && c[4] == q0 && d[2] == q0 && e[2] == q1 && e[4] == q0 && f[2] == q0 && g[2] == q1 then
            Some(Stub(reg, q0, q1))
          else None
        else None
      else None
  }

  /** A match is exactly the pattern: the window holds the five instructions
      with the register and the roles the matcher hands back. */
  lemma MatchQft2Sound(ops: seq<seq<string>>, pos: nat)
    requires MatchQft2(ops, pos).Some?
    ensures var st := MatchQft2(ops, pos).value;
            pos + 5 <= |ops| && ops[pos..pos + 5] == Qft2Ops(st.reg, st.q0, st.q1)
  {
    var a, b, c, d, e := ops[pos], ops[pos + 1], ops[pos + 2], ops[pos + 3], ops[pos + 4];
    var reg, q0, q1 := a[1], c[2], a[2];
    assert a == ["H", reg, q1] && b == ["CNOT", reg, q1, reg, q0] && c == ["S", reg, q0];
    assert d == ["H", reg, q0] && e == ["SWAP", reg, q0, reg, q1];
    assert ops[pos..pos + 5] == [a, b, c, d, e];
  }

  lemma MatchGrover2Sound(ops: seq<seq<string>>, pos: nat)
    requires MatchGrover2(ops, pos).Some?
    ensures var st := MatchGrover2(ops, pos).value;
            pos + 7 <= |ops| && ops[pos..pos + 7] == Grover2Ops(st.reg, st.q0, st.q1)
  {
    var a, b, c, d := ops[pos], ops[pos + 1], ops[pos + 2], ops[pos + 3];
    var e, f, g := ops[pos + 4], ops[pos + 5], ops[pos + 6];
    var reg, q0, q1 := a[1], a[2], b[2];
    assert a == ["H", reg, q0] && b == ["H", reg, q1] && c == ["CNOT", reg, q1, reg, q0];
    assert d == ["Z", reg, q0] && e == ["CNOT", reg, q1, reg, q0];
    assert f == ["H", reg, q0] && g == ["H", reg, q1];
    assert ops[pos..pos + 7] == [a, b, c, d, e, f, g];
  }

  /** The other direction: the matchers accept every window of their shape. */
  lemma MatchQft2Complete(ops: seq<seq<string>>, pos: nat, reg: string, q0: string, q1: string)
    requires pos + 5 <= |ops| && ops[pos..pos + 5] == Qft2Ops(reg, q0, q1)
    ensures MatchQft2(ops, pos) == Some(Stub(reg, q0, q1))
  {
    var w := Qft2Ops(reg, q0, q1);
    assert ops[pos] == w[0] && ops[pos + 1] == w[1] && ops[pos + 2] == w[2];
    assert ops[pos + 3] == w[3] && ops[pos + 4] == w[4];
  }

  lemma MatchGrover2Complete(ops: seq<seq<string>>, pos: nat, reg: string, q0: string, q1: string)
    requires pos + 7 <= |ops| && ops[pos..pos + 7] == Grover2Ops(reg, q0, q1)
    ensures MatchGrover2(ops, pos) == Some(Stub(reg, q0, q1))
  {
    var w := Grover2Ops(reg, q0, q1);
    assert ops[pos] == w[0] && ops[pos + 1] == w[1] && ops[pos + 2] == w[2] && ops[pos + 3] == w[3];
    assert ops[pos + 4] == w[4] && ops[pos + 5] == w[5] && ops[pos + 6] == w[6];
  }

  /** A matcher reads nothing outside its window. */
  lemma MatchLocal(a: seq<seq<string>>, p: nat, b: seq<seq<string>>, q: nat, w: nat)
    requires w == 5 || w == 7
    requires p + w <= |a| && q + w <= |b| && a[p..p + w] == b[q..q + w]
    ensures w == 5 ==> MatchQft2(a, p) == MatchQft2(b, q)
    ensures w == 7 ==> MatchGrover2(a, p) == MatchGrover2(b, q)
  {
    var A, B := a[p..p + w], b[q..q + w];
    assert A[0] == B[0] && A[1] == B[1] && A[2] == B[2] && A[3] == B[3] && A[4] == B[4];
    if w == 7 {
      assert A[5] == B[5] && A[6] == B[6];
    }
  }

  // ---------------------------------------------------------------------------
  // optimize_patterns

  /** The instruction a match is folded into. */
  function StubOp(name: string, st: Stub): seq<string> {
    [name, st.reg, st.q0, st.q1]
  }

  /** The output of the loop from position i on. */
  function Rewrite(ops: seq<seq<string>>, i: nat): seq<seq<string>>
    requires i <= |ops|
    decreases |ops| - i
  {
    if i == |ops| then []
    else
      match MatchQft2(ops, i)
      case Some(st) => [StubOp("QFT2", st)] + Rewrite(ops, i + 5)
      case None =>
        match MatchGrover2(ops, i)
        case Some(st) => [StubOp("GROVER2", st)] + Rewrite(ops, i + 7)
        case None => [ops[i]] + Rewrite(ops, i + 1)
  }

  /** `optimize_patterns(ops)`: at each position QFT2 is tried first, then
      GROVER2; anything else is copied and the scan moves on by one. The
      vector the source swaps into `ops` is the result. */
  method OptimizePatterns(ops: seq<seq<string>>) returns (optimized: seq<seq<string>>)
    ensures optimized == Rewrite(ops, 0)
    ensures Tiling(ops, optimized, Origins(ops, 0), 0)
  {
    var out: seq<seq<string>> := [];
    var i := 0;
    while i < |ops|
      invariant i <= |ops| && out + Rewrite(ops, i) == Rewrite(ops, 0)
      decreases |ops| - i
    {
      var m := MatchQft2(ops, i);
      if m.Some? {
        RewriteHead(ops, StubOp("QFT2", m.value), Folded(i, 5));
        AppendStep(out, StubOp("QFT2", m.value), Rewrite(ops, i + 5), Rewrite(ops, 0));
        out := out + [StubOp("QFT2", m.value)];
        i := i + 5;
        continue;
      }
      var g := MatchGrover2(ops, i);
      if g.Some? {
        RewriteHead(ops, StubOp("GROVER2", g.value), Folded(i, 7));
        AppendStep(out, StubOp("GROVER2", g.value), Rewrite(ops, i + 7), Rewrite(ops, 0));
        out := out + [StubOp("GROVER2", g.value)];
        i := i + 7;
        continue;
      }
      RewriteHead(ops, ops[i], Copied(i));
      AppendStep(out, ops[i], Rewrite(ops, i + 1), Rewrite(ops, 0));
      out := out + [ops[i]];
      i := i + 1;
    }
    assert out + [] == out;
    optimized := out;
    RewriteTiles(ops, 0);
  }

  lemma AppendStep(out: seq<seq<string>>, op: seq<string>, rest: seq<seq<string>>, whole: seq<seq<string>>)
    requires out + ([op] + rest) == whole
    ensures (out + [op]) + rest == whole
  {
  }

  // ---------------------------------------------------------------------------
  // Where each output instruction comes from

  /** An output instruction is a copy of input position `at`, or the stub of
      the window of `width` instructions starting there. */
  datatype Origin = Copied(at: nat) | Folded(at: nat, width: nat)

  function Width(o: Origin): nat {
    if o.Copied? then 1 else o.width
  }

  /** The origin of every output instruction, in step with `Rewrite`. */
  function Origins(ops: seq<seq<string>>, i: nat): seq<Origin>
    requires i <= |ops|
    decreases |ops| - i
  {
    if i == |ops| then []
    else if MatchQft2(ops, i).Some? then [Folded(i, 5)] + Origins(ops, i + 5)
    else if MatchGrover2(ops, i).Some? then [Folded(i, 7)] + Origins(ops, i + 7)
    else [Copied(i)] + Origins(ops, i + 1)
  }

  /** What one output instruction says about the input: a copy is of a
      position where neither pattern starts; a fold is the stub of a match,
      QFT2 taking precedence. */
  predicate Accounts(ops: seq<seq<string>>, op: seq<string>, o: Origin) {
    o.at + Width(o) <= |ops| &&
    match o
    case Copied(at) => op == ops[at] && MatchQft2(ops, at).None? && MatchGrover2(ops, at).None?
    case Folded(at, w) =>
      (w == 5 && MatchQft2(ops, at).Some? && op == StubOp("QFT2", MatchQft2(ops, at).value)) ||
      (w == 7 && MatchQft2(ops, at).None? && MatchGrover2(ops, at).Some? &&
       op == StubOp("GROVER2", MatchGrover2(ops, at).value))
  }

  /** Instruction j of the output is accounted for by its origin. */
  predicate Accounted(ops: seq<seq<string>>, out: seq<seq<string>>, orig: seq<Origin>, j: int) {
    0 <= j < |out| && j < |orig| && Accounts(ops, out[j], orig[j])
  }

  /** Piece j + 1 starts where piece j ends. */
  predicate Linked(orig: seq<Origin>, j: int) {
    0 <= j && j + 1 < |orig| && orig[j + 1].at == orig[j].at + Width(orig[j])
  }

  /** The origins cut the input from position i to its end into consecutive
      pieces, one per output instruction and in order. */
  predicate Tiling(ops: seq<seq<string>>, out: seq<seq<string>>, orig: seq<Origin>, i: nat) {
    |orig| == |out| &&
    (forall j :: 0 <= j < |orig| ==> Accounted(ops, out, orig, j)) &&
    (|orig| == 0 ==> i == |ops|) &&
    (|orig| > 0 ==> orig[0].at == i && orig[|orig| - 1].at + Width(orig[|orig| - 1]) == |ops|) &&
    (forall j :: 0 <= j < |orig| - 1 ==> Linked(orig, j))
  }

  /** An instruction accounted for by its origin is the head of the rewrite
      from that position, and the rest starts where its piece ends. */
  lemma RewriteHead(ops: seq<seq<string>>, op: seq<string>, o: Origin)
    requires Accounts(ops, op, o)
    ensures Rewrite(ops, o.at) == [op] + Rewrite(ops, o.at + Width(o))
    ensures Origins(ops, o.at) == [o] + Origins(ops, o.at + Width(o))
  {
  }

  lemma {:induction false} RewriteTiles(ops: seq<seq<string>>, i: nat)
    requires i <= |ops|
    ensures Tiling(ops, Rewrite(ops, i), Origins(ops, i), i)
    decreases |ops| - i
  {
    if i < |ops| {
      var m, g := MatchQft2(ops, i), MatchGrover2(ops, i);
      var o := if m.Some? then Folded(i, 5) else if g.Some? then Folded(i, 7) else Copied(i);
      var op := if m.Some? then StubOp("QFT2", m.value) else if g.Some? then StubOp("GROVER2", g.value) else ops[i];
      assert o.at == i && Accounts(ops, op, o);
      var next := i + Width(o);
      RewriteHead(ops, op, o);
      RewriteTiles(ops, next);
      TilingCons(ops, Rewrite(ops, next), Origins(ops, next), next, op, o);
      TilingEq(ops, [op] + Rewrite(ops, next), Rewrite(ops, i), [o] + Origins(ops, next), Origins(ops, i), i);
    }
  }

  lemma TilingEq(ops: seq<seq<string>>, out: seq<seq<string>>, out': seq<seq<string>>,
                 orig: seq<Origin>, orig': seq<Origin>, i: nat)
    requires Tiling(ops, out, orig, i) && out == out' && orig == orig'
    ensures Tiling(ops, out', orig', i)
  {
  }

  /** One more piece in front of a tiling. */
  lemma TilingCons(ops: seq<seq<string>>, out: seq<seq<string>>, orig: seq<Origin>, i: nat,
                   op: seq<string>, o: Origin)
    requires Tiling(ops, out, orig, i) && Accounts(ops, op, o) && o.at + Width(o) == i
    ensures Tiling(ops, [op] + out, [o] + orig, o.at)
  {
    var out', orig' := [op] + out, [o] + orig;
    forall j | 0 <= j < |orig'|
      ensures Accounted(ops, out', orig', j)
    {
      if j > 0 {
        assert Accounted(ops, out, orig, j - 1);
        assert out'[j] == out[j - 1] && orig'[j] == orig[j - 1];
      }
    }
    forall j | 0 <= j < |orig'| - 1
      ensures Linked(orig', j)
    {
      if j > 0 {
        assert Linked(orig, j - 1);
        assert orig'[j] == orig[j - 1] && orig'[j + 1] == orig[j];
      }
    }
  }

  /** The tiling determines the output: it is an independent description of
      what the loop computes. */
  lemma {:induction false} TilingUnique(ops: seq<seq<string>>, out: seq<seq<string>>, orig: seq<Origin>, i: nat)
    requires i <= |ops| && Tiling(ops, out, orig, i)
    ensures out == Rewrite(ops, i) && orig == Origins(ops, i)
    decreases |orig|
  {
    if |orig| > 0 {
      var o := orig[0];
      assert Accounted(ops, out, orig, 0);
      var i' := i + Width(o);
      TilingTail(ops, out, orig, i);
      TilingUnique(ops, out[1..], orig[1..], i');
      RewriteHead(ops, out[0], o);
      ConsJoin(out, Rewrite(ops, i), Rewrite(ops, i'));
      ConsJoin(orig, Origins(ops, i), Origins(ops, i'));
    }
  }

  lemma ConsJoin<T>(s: seq<T>, whole: seq<T>, rest: seq<T>)
    requires |s| > 0 && s[1..] == rest && whole == [s[0]] + rest
    ensures s == whole
  {
    assert s == [s[0]] + s[1..];
  }

  lemma TilingTail(ops: seq<seq<string>>, out: seq<seq<string>>, orig: seq<Origin>, i: nat)
    requires Tiling(ops, out, orig, i) && |orig| > 0
    ensures orig[0].at + Width(orig[0]) <= |ops|
    ensures Tiling(ops, out[1..], orig[1..], orig[0].at + Width(orig[0]))
  {
    assert Accounted(ops, out, orig, 0);
    var out', orig' := out[1..], orig[1..];
    forall j | 0 <= j < |orig'|
      ensures Accounted(ops, out', orig', j)
    {
      assert Accounted(ops, out, orig, j + 1);
      assert out'[j] == out[j + 1] && orig'[j] == orig[j + 1];
    }
    forall j | 0 <= j < |orig'| - 1
      ensures Linked(orig', j)
    {
      assert Linked(orig, j + 1);
      assert orig'[j] == orig[j + 1] && orig'[j + 1] == orig[j + 2];
    }
    if |orig'| > 0 {
      assert Linked(orig, 0);
      assert orig'[0] == orig[1];
    }
  }

  // ---------------------------------------------------------------------------
  // Length

  /** How many windows of a given width were folded. */
  function Folds(orig: seq<Origin>, w: nat): nat {
    if |orig| == 0 then 0
    else Folds(orig[..|orig| - 1], w) + (if orig[|orig| - 1] == Folded(orig[|orig| - 1].at, w) then 1 else 0)
  }

  /** The pieces' widths add up to what they cover. */
  lemma {:induction false} TilingWidths(ops: seq<seq<string>>, out: seq<seq<string>>, orig: seq<Origin>, i: nat)
    requires Tiling(ops, out, orig, i)
    ensures |ops| - i == |orig| + 4 * Folds(orig, 5) + 6 * Folds(orig, 7)
    decreases |orig|
  {
    if |orig| > 0 {
      assert Accounted(ops, out, orig, 0);
      TilingTail(ops, out, orig, i);
      TilingWidths(ops, out[1..], orig[1..], orig[0].at + Width(orig[0]));
      FoldsCons(orig[0], orig[1..], 5);
      FoldsCons(orig[0], orig[1..], 7);
      assert orig == [orig[0]] + orig[1..];
    }
  }

  lemma {:induction false} FoldsCons(o: Origin, rest: seq<Origin>, w: nat)
    ensures Folds([o] + rest, w) == (if o == Folded(o.at, w) then 1 else 0) + Folds(rest, w)
    decreases |rest|
  {
    var s := [o] + rest;
    if |rest| > 0 {
      var last := rest[|rest| - 1];
      assert s[..|s| - 1] == [o] + rest[..|rest| - 1];
      assert s[|s| - 1] == last;
      FoldsCons(o, rest[..|rest| - 1], w);
    } else {
      assert s[..|s| - 1] == [];
    }
  }

  /** Every QFT2 fold shortens the list by four and every GROVER2 fold by six;
      the output is never longer than the input. */
  lemma OptimizedLength(ops: seq<seq<string>>)
    ensures var orig := Origins(ops, 0);
            |Rewrite(ops, 0)| == |ops| - 4 * Folds(orig, 5) - 6 * Folds(orig, 7) &&
            |Rewrite(ops, 0)| <= |ops|
  {
    RewriteTiles(ops, 0);
    TilingWidths(ops, Rewrite(ops, 0), Origins(ops, 0), 0);
  }

  // ---------------------------------------------------------------------------
  // A second pass changes nothing

  /** Consecutive copies come from consecutive input positions. */
  lemma {:induction false} CopyRun(ops: seq<seq<string>>, out: seq<seq<string>>, orig: seq<Origin>, j: nat, w: nat)
    requires Tiling(ops, out, orig, 0) && j + w <= |out| && w > 0
    requires forall t :: j <= t < j + w ==> orig[t].Copied?
    ensures orig[j].at + w <= |ops|
    ensures forall t :: j <= t < j + w ==> orig[t].at == orig[j].at + (t - j) && out[t] == ops[orig[t].at]
    decreases w
  {
    var last := j + w - 1;
    assert Accounted(ops, out, orig, last);
    if w > 1 {
      CopyRun(ops, out, orig, j, w - 1);
      assert Linked(orig, last - 1);
    }
  }

  /** No window of the output matches: a stub has four fields, a size no
      matched instruction has, and a run of copies is a window that already
      failed in the input. */
  lemma NoMatchInOutput(ops: seq<seq<string>>, out: seq<seq<string>>, orig: seq<Origin>, j: nat)
    requires Tiling(ops, out, orig, 0) && j < |out|
    ensures MatchQft2(out, j).None? && MatchGrover2(out, j).None?
  {
    NoMatchWidth(ops, out, orig, j, 5);
    NoMatchWidth(ops, out, orig, j, 7);
  }

  lemma NoMatchWidth(ops: seq<seq<string>>, out: seq<seq<string>>, orig: seq<Origin>, j: nat, w: nat)
    requires Tiling(ops, out, orig, 0) && j < |out| && (w == 5 || w == 7)
    ensures w == 5 ==> MatchQft2(out, j).None?
    ensures w == 7 ==> MatchGrover2(out, j).None?
  {
    if j + w <= |out| {
      if exists t :: j <= t < j + w && orig[t].Folded? {
        var t :| j <= t < j + w && orig[t].Folded?;
        StubSize(ops, out, orig, t);
        StubBreaks(out, j, t, w);
      } else {
        CopyRun(ops, out, orig, j, w);
        var o := orig[j].at;
        assert Accounted(ops, out, orig, j);
        CopiedWindow(ops, out, o, j, w);
        MatchLocal(out, j, ops, o, w);
      }
    }
  }

  /** A stub has four fields. */
  lemma StubSize(ops: seq<seq<string>>, out: seq<seq<string>>, orig: seq<Origin>, t: nat)
    requires Tiling(ops, out, orig, 0) && t < |out| && orig[t].Folded?
    ensures |out[t]| == 4
  {
    assert Accounted(ops, out, orig, t);
  }

  /** A window holding an instruction of four fields matches no pattern. */
  lemma StubBreaks(s: seq<seq<string>>, j: nat, t: nat, w: nat)
    requires (w == 5 || w == 7) && j <= t < j + w <= |s| && |s[t]| == 4
    ensures w == 5 ==> MatchQft2(s, j).None?
    ensures w == 7 ==> MatchGrover2(s, j).None?
  {
    var d := t - j;
    assert s[j + d] == s[t];
  }

  lemma CopiedWindow(ops: seq<seq<string>>, out: seq<seq<string>>, o: nat, j: nat, w: nat)
    requires j + w <= |out| && o + w <= |ops|
    requires forall t :: j <= t < j + w ==> out[t] == ops[o + (t - j)]
    ensures out[j..j + w] == ops[o..o + w]
  {
    var A, B := out[j..j + w], ops[o..o + w];
    forall d | 0 <= d < w
      ensures A[d] == B[d]
    {
      assert out[j + d] == ops[o + (j + d - j)];
    }
  }

  /** A list where no pattern starts anywhere is its own rewrite. */
  lemma {:induction false} CleanFixed(s: seq<seq<string>>, i: nat)
    requires i <= |s|
    requires forall j :: i <= j < |s| ==> MatchQft2(s, j).None? && MatchGrover2(s, j).None?
    ensures Rewrite(s, i) == s[i..]
    decreases |s| - i
  {
    if i < |s| {
      CleanFixed(s, i + 1);
      assert s[i..] == [s[i]] + s[i + 1..];
    }
  }

  /** Running `optimize_patterns` a second time changes nothing. */
  lemma OptimizeIdempotent(ops: seq<seq<string>>)
    ensures Rewrite(Rewrite(ops, 0), 0) == Rewrite(ops, 0)
  {
    var out, orig := Rewrite(ops, 0), Origins(ops, 0);
    RewriteTiles(ops, 0);
    forall j | 0 <= j < |out|
      ensures MatchQft2(out, j).None? && MatchGrover2(out, j).None?
    {
      NoMatchInOutput(ops, out, orig, j);
    }
    CleanFixed(out, 0);
    assert out[0..] == out;
  }

  // ---------------------------------------------------------------------------
  // apply_qft2 and apply_grover2

  /** The gates the helpers issue. */
  datatype Gate = H(q: nat) | S(q: nat) | Z(q: nat) | Cnot(c: nat, t: nat) | Swap(a: nat, b: nat)

  /** `apply_qft2(qr, q0, q1)`. */
  function Qft2Gates(q0: nat, q1: nat): seq<Gate> {
    [H(q1), Cnot(q1, q0), S(q0), H(q0), Swap(q0, q1)]
  }

  /** `apply_grover2(qr, q0, q1)`. */
  function Grover2Gates(q0: nat, q1: nat): seq<Gate> {
    [H(q0), H(q1), Cnot(q1, q0), Z(q0), Cnot(q1, q0), H(q0), H(q1)]
  }

  /** A gate written as an instruction of the list format. */
  function Render(reg: string, g: Gate): seq<string> {
    match g
    case H(q) => ["H", reg, Decimal(q)]
    case S(q) => ["S", reg, Decimal(q)]
    case Z(q) => ["Z", reg, Decimal(q)]
    case Cnot(c, t) => ["CNOT", reg, Decimal(c), reg, Decimal(t)]
    case Swap(a, b) => ["SWAP", reg, Decimal(a), reg, Decimal(b)]
  }

  function RenderAll(reg: string, gs: seq<Gate>): (r: seq<seq<string>>)
    ensures |r| == |gs| && forall i :: 0 <= i < |gs| ==> r[i] == Render(reg, gs[i])
  {
    seq(|gs|, i requires 0 <= i < |gs| => Render(reg, gs[i]))
  }

  /** The helpers issue exactly the windows the matchers fold, with the same
      roles for q0 and q1. */
  lemma Qft2Recognised(reg: string, q0: nat, q1: nat)
    ensures RenderAll(reg, Qft2Gates(q0, q1)) == Qft2Ops(reg, Decimal(q0), Decimal(q1))
    ensures MatchQft2(RenderAll(reg, Qft2Gates(q0, q1)), 0) == Some(Stub(reg, Decimal(q0), Decimal(q1)))
  {
    var ops := RenderAll(reg, Qft2Gates(q0, q1));
    assert ops == Qft2Ops(reg, Decimal(q0), Decimal(q1));
    assert ops[0..5] == ops;
    MatchQft2Complete(ops, 0, reg, Decimal(q0), Decimal(q1));
  }

  lemma Grover2Recognised(reg: string, q0: nat, q1: nat)
    ensures RenderAll(reg, Grover2Gates(q0, q1)) == Grover2Ops(reg, Decimal(q0), Decimal(q1))
    ensures MatchGrover2(RenderAll(reg, Grover2Gates(q0, q1)), 0) == Some(Stub(reg, Decimal(q0), Decimal(q1)))
  {
    var ops := RenderAll(reg, Grover2Gates(q0, q1));
    assert ops == Grover2Ops(reg, Decimal(q0), Decimal(q1));
    assert ops[0..7] == ops;
    MatchGrover2Complete(ops, 0, reg, Decimal(q0), Decimal(q1));
  }

  /** The operands of a gate are inside a register of n qubits. */
  predicate Fits(g: Gate, n: nat) {
    match g
    case H(q) => q < n
    case S(q) => q < n
    case Z(q) => q < n
    case Cnot(c, t) => c < n && t < n
    case Swap(a, b) => a < n && b < n
  }

  /** What one gate does to a register's vector, as the Wavefunction methods
      promise; an empty (disk-backed or compressed) vector stays empty. */
  function GateOn(s: seq<Complex>, n: nat, g: Gate, k: Constants): (r: seq<Complex>)
    requires |s| == 0 || (|s| == Pow2(n) && Fits(g, n))
    ensures |r| == |s|
  {
    match g
    case H(q) => RegisterPairable(|s|, n, q); Kernel(s, q, HMat(k))
    case S(q) => RegisterPairable(|s|, n, q); Kernel(s, q, SMat())
    case Z(q) => RegisterPairable(|s|, n, q); Kernel(s, q, ZMat())
    case Cnot(c, t) => CnotBounds(n, c, t); Permuted(s, CnotPairs(c, t))
    case Swap(a, b) => SwapBounds(n, a, b); Permuted(s, SwapPairs(a, b))
  }

  /** The gates applied in list order. */
  function Run(s: seq<Complex>, n: nat, gs: seq<Gate>, k: Constants): (r: seq<Complex>)
    requires |s| == 0 || (|s| == Pow2(n) && forall i :: 0 <= i < |gs| ==> Fits(gs[i], n))
    ensures |r| == |s|
    decreases |gs|
  {
    if |gs| == 0 then s else Run(GateOn(s, n, gs[0], k), n, gs[1..], k)
  }

  /** `apply_qft2(qr, q0, q1)`. `QRegister` as declared has no `s` or `swap`;
      those two calls go to the state's own `apply_s` and `apply_swap`. */
  method ApplyQft2(qr: QRegister, q0: nat, q1: nat, k: Constants)
    requires qr.Valid() && (qr.wf.state.Length == 0 || (q0 < qr.wf.numQubits && q1 < qr.wf.numQubits))
    modifies qr.wf.state
    ensures qr.Valid() && qr.State() == Run(old(qr.State()), qr.wf.numQubits, Qft2Gates(q0, q1), k)
  {
    ghost var n, s0 := qr.wf.numQubits, qr.State();
    ghost var gs := Qft2Gates(q0, q1);
    assert |s0| == 0 || |s0| == Pow2(n);
    qr.H(q1, k);
    ghost var s1 := qr.State();
    qr.Cnot(q1, q0);
    ghost var s2 := qr.State();
    qr.wf.ApplyS(q0);
    ghost var s3 := qr.State();
    qr.H(q0, k);
    ghost var s4 := qr.State();
    qr.wf.ApplySwap(q0, q1);
    assert s1 == GateOn(s0, n, gs[0], k) && s2 == GateOn(s1, n, gs[1], k) && s3 == GateOn(s2, n, gs[2], k);
    assert s4 == GateOn(s3, n, gs[3], k) && qr.State() == GateOn(s4, n, gs[4], k);
    RunFive(s0, n, gs, k);
  }

  /** `apply_grover2(qr, q0, q1)`. */
  method ApplyGrover2(qr: QRegister, q0: nat, q1: nat, k: Constants)
    requires qr.Valid() && (qr.wf.state.Length == 0 || (q0 < qr.wf.numQubits && q1 < qr.wf.numQubits))
    modifies qr.wf.state
    ensures qr.Valid() && qr.State() == Run(old(qr.State()), qr.wf.numQubits, Grover2Gates(q0, q1), k)
  {
    ghost var n, s0 := qr.wf.numQubits, qr.State();
    ghost var gs := Grover2Gates(q0, q1);
    assert |s0| == 0 || |s0| == Pow2(n);
    qr.H(q0, k);
    ghost var s1 := qr.State();
    qr.H(q1, k);
    ghost var s2 := qr.State();
    qr.Cnot(q1, q0);
    ghost var s3 := qr.State();
    qr.Z(q0);
    ghost var s4 := qr.State();
    qr.Cnot(q1, q0);
    ghost var s5 := qr.State();
    qr.H(q0, k);
    ghost var s6 := qr.State();
    qr.H(q1, k);
    assert s1 == GateOn(s0, n, gs[0], k) && s2 == GateOn(s1, n, gs[1], k) && s3 == GateOn(s2, n, gs[2], k);
    assert s4 == GateOn(s3, n, gs[3], k) && s5 == GateOn(s4, n, gs[4], k) && s6 == GateOn(s5, n, gs[5], k);
    assert qr.State() == GateOn(s6, n, gs[6], k);
    RunSeven(s0, n, gs, k);
  }

  /** One gate peeled off the front of the rest of a list. */
  lemma RunUnfold(s: seq<Complex>, n: nat, gs: seq<Gate>, i: nat, k: Constants)
    requires i < |gs| && (|s| == 0 || (|s| == Pow2(n) && forall j :: 0 <= j < |gs| ==> Fits(gs[j], n)))
    ensures Run(s, n, gs[i..], k) == Run(GateOn(s, n, gs[i], k), n, gs[i + 1..], k)
  {
    assert gs[i..][0] == gs[i];
    assert gs[i..][1..] == gs[i + 1..];
  }

  lemma RunFive(s: seq<Complex>, n: nat, gs: seq<Gate>, k: Constants)
    requires |gs| == 5 && (|s| == 0 || (|s| == Pow2(n) && forall i :: 0 <= i < 5 ==> Fits(gs[i], n)))
    ensures var s1 := GateOn(s, n, gs[0], k); var s2 := GateOn(s1, n, gs[1], k);
            var s3 := GateOn(s2, n, gs[2], k); var s4 := GateOn(s3, n, gs[3], k);
            Run(s, n, gs, k) == GateOn(s4, n, gs[4], k)
  {
    var s1 := GateOn(s, n, gs[0], k);
    var s2 := GateOn(s1, n, gs[1], k);
    var s3 := GateOn(s2, n, gs[2], k);
    var s4 := GateOn(s3, n, gs[3], k);
    assert gs[0..] == gs;
    RunUnfold(s, n, gs, 0, k);
    RunUnfold(s1, n, gs, 1, k);
    RunUnfold(s2, n, gs, 2, k);
    RunUnfold(s3, n, gs, 3, k);
    RunUnfold(s4, n, gs, 4, k);
    assert gs[5..] == [];
  }

  lemma RunSeven(s: seq<Complex>, n: nat, gs: seq<Gate>, k: Constants)
    requires |gs| == 7 && (|s| == 0 || (|s| == Pow2(n) && forall i :: 0 <= i < 7 ==> Fits(gs[i], n)))
    ensures var s1 := GateOn(s, n, gs[0], k); var s2 := GateOn(s1, n, gs[1], k);
            var s3 := GateOn(s2, n, gs[2], k); var s4 := GateOn(s3, n, gs[3], k);
            var s5 := GateOn(s4, n, gs[4], k); var s6 := GateOn(s5, n, gs[5], k);
            Run(s, n, gs, k) == GateOn(s6, n, gs[6], k)
  {
    var s1 := GateOn(s, n, gs[0], k);
    var s2 := GateOn(s1, n, gs[1], k);
    var s3 := GateOn(s2, n, gs[2], k);
    var s4 := GateOn(s3, n, gs[3], k);
    var s5 := GateOn(s4, n, gs[4], k);
    var s6 := GateOn(s5, n, gs[5], k);
    assert gs[0..] == gs;
    RunUnfold(s, n, gs, 0, k);
    RunUnfold(s1, n, gs, 1, k);
    RunUnfold(s2, n, gs, 2, k);
    RunUnfold(s3, n, gs, 3, k);
    RunUnfold(s4, n, gs, 4, k);
    RunUnfold(s5, n, gs, 5, k);
    RunUnfold(s6, n, gs, 6, k);
    assert gs[7..] == [];
  }
}
