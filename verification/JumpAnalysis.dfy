/** Jump destinations: the linear scan, its cached bitmap, and the instruction pointer. */
module JumpAnalysis {
  import opened Numbers
  import opened BitMaps

  const STOP: byte := 0x00
  const JUMP: byte := 0x56
  const JUMPI: byte := 0x57
  const JUMPDEST: byte := 0x5B
  const PUSH1: byte := 0x60
  const PUSH32: byte := 0x7F

  /** Immediate bytes behind an opcode. */
  function Immediates(op: byte): nat { if PUSH1 <= op <= PUSH32 then op - PUSH1 + 1 else 0 }

  // ----- instruction boundaries

  /** The linear scan that starts at `from` passes through `i`. */
  ghost predicate Passes(code: seq<byte>, from: nat, i: nat)
    decreases if from <= i then i - from else 0
  {
    from == i || (from < i && from < |code| && Passes(code, from + 1 + Immediates(code[from]), i))
  }

  ghost predicate Boundary(code: seq<byte>, i: nat) { Passes(code, 0, i) }

  ghost predicate ValidDest(code: seq<byte>, i: nat) { i < |code| && code[i] == JUMPDEST && Boundary(code, i) }

  /** Once the scan is at i, what it passes later does not depend on how it got there. */
  lemma {:induction false} PassesFrom(code: seq<byte>, from: nat, i: nat, j: nat)
    requires Passes(code, from, i) && i <= j
    ensures Passes(code, from, j) <==> Passes(code, i, j)
    decreases if from <= i then i - from else 0
  {
    if from < i {
      PassesFrom(code, from + 1 + Immediates(code[from]), i, j);
    }
  }

  /** The next boundary is behind the immediates, and nothing inside them is one. */
  lemma {:induction false} NextBoundary(code: seq<byte>, i: nat)
    requires i < |code| && Boundary(code, i)
    ensures Boundary(code, i + 1 + Immediates(code[i]))
    ensures forall j :: i < j < i + 1 + Immediates(code[i]) ==> !Boundary(code, j)
  {
    var next := i + 1 + Immediates(code[i]);
    PassesFrom(code, 0, i, next);
    forall j | i < j < next ensures !Boundary(code, j) {
      PassesFrom(code, 0, i, j);
    }
  }

  // ----- analysis

  /** The bitmap has exactly the valid jump destinations of the code. */
  method Analyze(code: seq<byte>, n: WordSize) returns (jumps: BitMapOwned)
    ensures fresh(jumps) && fresh(jumps.inner) && jumps.n == n && jumps.inner.Length * n == (|code| + 63) / 64 * 8
    ensures forall p: nat :: jumps.Get(p) <==> ValidDest(code, p)
  {
    jumps := new BitMapOwned(|code|, n);
    var i := 0;
    while i < |code|
      invariant Boundary(code, i)
      invariant jumps.inner.Length * n == (|code| + 63) / 64 * 8
      invariant forall p: nat :: jumps.Get(p) <==> p < i && ValidDest(code, p)
    {
      var op := code[i];
      NextBoundary(code, i);
      if op == JUMPDEST {
        jumps.SetBitOn(i);
        i := i + 1;
      } else if PUSH1 <= op <= PUSH32 {
        i := i + 1 + (op - PUSH1 + 1);
      } else {
        i := i + 1;
      }
    }
  }

  // ----- the cached artifact

  const BYTECODE_ALIGNMENT: nat := 8

  datatype ParseError = PaddingUnderflow | Misaligned

  /** Code length and bitmap of a deployed contract, read with words of n bytes. */
  datatype Preprocessing = Preprocessing(codeLen: nat, n: WordSize, words: seq<nat>) {
    /** The unchecked bitmap access stays inside the bitmap for every offset into the code. */
    ghost predicate Covers() { forall off :: 0 <= off < codeLen ==> off / (8 * n) < |words| }

    predicate IsValidJumpdest(off: nat)
      requires Covers()
    {
      off < codeLen && Bit(words[off / (8 * n)], off % (8 * n))
    }
  }

  /** Splits a stored bytecode into the code and its bitmap, whatever the padding between them. */
  function ParseBytecode(bytecode: seq<byte>, deployedLen: nat, artifactsLen: nat, n: WordSize)
    : (r: Result<(seq<byte>, Preprocessing), ParseError>)
  {
    if |bytecode| < deployedLen || |bytecode| - deployedLen < artifactsLen then Err(PaddingUnderflow)
    else
      var padding := |bytecode| - deployedLen - artifactsLen;
      var bitmap := bytecode[deployedLen..][padding..];
      if |bitmap| % BYTECODE_ALIGNMENT != 0 then Err(Misaligned)
      else
        Aligned(|bitmap|, n);
        Ok((bytecode[..deployedLen], Preprocessing(deployedLen, n, Deserialize(bitmap, n))))
  }

  lemma Aligned(len: nat, n: WordSize)
    requires len % BYTECODE_ALIGNMENT == 0
    ensures len % n == 0
  {
  }

  /** The words of a finished analysis. */
  ghost predicate Analyzed(code: seq<byte>, words: seq<nat>, n: WordSize)
  {
    && |words| * n == (|code| + 63) / 64 * 8
    && (forall p: nat :: BitAt(words, 8 * n, p) <==> ValidDest(code, p))
  }

  lemma {:induction false} DeserializeLength(bytes: seq<byte>, n: WordSize)
    requires |bytes| % n == 0
    ensures |Deserialize(bytes, n)| * n == |bytes|
  {
    SerializeDeserialize(bytes, n);
  }

  lemma ParseStored(code: seq<byte>, padding: seq<byte>, artifacts: seq<byte>, n: WordSize)
    requires |artifacts| % BYTECODE_ALIGNMENT == 0
    ensures |artifacts| % n == 0
    ensures ParseBytecode(code + padding + artifacts, |code|, |artifacts|, n)
         == Ok((code, Preprocessing(|code|, n, Deserialize(artifacts, n))))
  {
    var stored := code + padding + artifacts;
    assert stored[|code|..][|padding|..] == artifacts;
    assert stored[..|code|] == code;
    Aligned(|artifacts|, n);
  }

  /** What a bitmap made with words of n bytes becomes when read back with words of n' bytes. */
  ghost function ReadBack(code: seq<byte>, words: seq<nat>, n: WordSize, n': WordSize): Preprocessing
    requires |words| * n == (|code| + 63) / 64 * 8
  {
    Aligned(|Serialize(words, n)|, n');
    Preprocessing(|code|, n', Deserialize(Serialize(words, n), n'))
  }

  lemma ReadBackCovers(code: seq<byte>, words: seq<nat>, n: WordSize, n': WordSize)
    requires |words| * n == (|code| + 63) / 64 * 8
    ensures ReadBack(code, words, n, n').Covers()
  {
    Aligned(|Serialize(words, n)|, n');
    DeserializeLength(Serialize(words, n), n');
    CoversCode(ReadBack(code, words, n, n'));
  }

  lemma ReadBackAt(code: seq<byte>, words: seq<nat>, n: WordSize, n': WordSize, off: nat)
    requires |words| * n == (|code| + 63) / 64 * 8
    ensures ReadBack(code, words, n, n').Covers()
    ensures ReadBack(code, words, n, n').IsValidJumpdest(off) <==> off < |code| && BitAt(words, 8 * n, off)
  {
    ReadBackCovers(code, words, n, n');
    Aligned(|Serialize(words, n)|, n');
    Reread(words, n, n', off);
    AnswersByBit(ReadBack(code, words, n, n'), off);
  }

  lemma AnswersByBit(pre: Preprocessing, off: nat)
    requires pre.Covers()
    ensures pre.IsValidJumpdest(off) <==> off < pre.codeLen && BitAt(pre.words, 8 * pre.n, off)
  {
    IndexOf(pre.words, pre.n, off);
  }

  /**
   * An analysis made with words of n bytes, stored behind the code with any padding, and
   * read back with words of n' bytes, answers as a fresh analysis does.
   */
  lemma CachedAnalysisAgrees(code: seq<byte>, words: seq<nat>, n: WordSize, padding: seq<byte>, n': WordSize)
    requires Analyzed(code, words, n)
    ensures var artifacts := Serialize(words, n);
      var parsed := ParseBytecode(code + padding + artifacts, |code|, |artifacts|, n');
      && parsed.Ok? && parsed.value.0 == code && parsed.value.1.Covers()
      && forall off: nat :: parsed.value.1.IsValidJumpdest(off) <==> ValidDest(code, off)
  {
    ParseStored(code, padding, Serialize(words, n), n');
    ReadBackAgrees(code, words, n, n');
  }

  lemma ReadBackAgrees(code: seq<byte>, words: seq<nat>, n: WordSize, n': WordSize)
    requires Analyzed(code, words, n)
    ensures ReadBack(code, words, n, n').Covers()
    ensures forall off: nat :: ReadBack(code, words, n, n').IsValidJumpdest(off) <==> ValidDest(code, off)
  {
    ReadBackCovers(code, words, n, n');
    forall off: nat ensures ReadBack(code, words, n, n').IsValidJumpdest(off) <==> ValidDest(code, off) {
      ReadBackAt(code, words, n, n', off);
    }
  }

  lemma CoversCode(pre: Preprocessing)
    requires |pre.words| * pre.n == (pre.codeLen + 63) / 64 * 8
    ensures pre.Covers()
  {
    if pre.n == 4 {
      assert |pre.words| == (pre.codeLen + 63) / 64 * 2;
    } else {
      assert |pre.words| == (pre.codeLen + 63) / 64;
    }
  }

  lemma IndexOf(words: seq<nat>, n: WordSize, pos: nat)
    ensures BitAt(words, 8 * n, pos) <==> pos / (8 * n) < |words| && Bit(words[pos / (8 * n)], pos % (8 * n))
  {
    if n == 4 {
      BitAtIndex(words, 32, pos, pos / 32, pos % 32);
    } else {
      BitAtIndex(words, 64, pos, pos / 64, pos % 64);
    }
  }

  // ----- the instruction pointer

  /** What the stack and the meters bring into one step. */
  datatype StepInput = StepInput(dest: u256, condition: u256, aborts: bool)

  function UsizeMax(n: WordSize): nat { if n == 4 then U32_MAX else U64_MAX }

  predicate TakesJump(op: byte, input: StepInput) { op == JUMP || (op == JUMPI && input.condition != 0) }

  class Execution {
    const code: seq<byte>
    const pre: Preprocessing
    var ip: nat

    constructor (code: seq<byte>, pre: Preprocessing)
      requires pre.Covers() && forall off: nat :: pre.IsValidJumpdest(off) <==> ValidDest(code, off)
      ensures this.code == code && this.pre == pre && ip == 0 && Valid()
    {
      this.code, this.pre, ip := code, pre, 0;
    }

    /** The pointer stands on an instruction, or past the code. */
    ghost predicate Valid()
      reads this
    {
      && pre.Covers() && (forall off: nat :: pre.IsValidJumpdest(off) <==> ValidDest(code, off))
      && (ip >= |code| || Boundary(code, ip))
    }

    /** Past the code there is an endless run of STOP. */
    function OpcodeAt(i: nat): byte { if i < |code| then code[i] else STOP }

    method Jump(dest: u256) returns (ok: bool)
      requires Valid()
      modifies this
      ensures Valid()
      ensures ok <==> dest <= UsizeMax(pre.n) && ValidDest(code, dest)
      ensures ip == if ok then dest else old(ip)
    {
      ok := dest <= UsizeMax(pre.n) && pre.IsValidJumpdest(dest);
      if ok {
        ip := dest;
      }
    }

    /** Whether the instruction at a position lets the run go on, and where. */
    ghost predicate Continues(at: nat, input: StepInput)
    {
      && OpcodeAt(at) != STOP && !input.aborts
      && (TakesJump(OpcodeAt(at), input) ==> input.dest <= UsizeMax(pre.n) && ValidDest(code, input.dest))
    }

    ghost function Next(at: nat, input: StepInput): nat
    {
      if TakesJump(OpcodeAt(at), input) then input.dest else at + 1 + Immediates(OpcodeAt(at))
    }

    /** The positions a run visits, from its first to the one where it stops or runs out of input. */
    ghost function Trace(at: nat, inputs: seq<StepInput>): seq<nat>
      decreases |inputs|
    {
      if inputs == [] then []
      else [at] + if Continues(at, inputs[0]) then Trace(Next(at, inputs[0]), inputs[1..]) else []
    }

    /** One instruction; `running` is false when the frame ends. */
    method Step(input: StepInput) returns (running: bool)
      requires Valid()
      modifies this
      ensures Valid()
      ensures running <==> Continues(old(ip), input)
      ensures running ==> ip == Next(old(ip), input)
    {
      var opcode := OpcodeAt(ip);
      if ip < |code| {
        NextBoundary(code, ip);
      }
      if opcode == STOP || input.aborts {
        return false;
      }
      if PUSH1 <= opcode <= PUSH32 {
        ip := ip + 1 + (opcode - PUSH1 + 1);
        return true;
      }
      ip := ip + 1;
      running := true;
      if TakesJump(opcode, input) {
        running := Jump(input.dest);
      }
    }

    lemma {:induction false} TraceNext(before: seq<nat>, at: nat, inputs: seq<StepInput>, i: nat)
      requires i < |inputs|
      ensures before + Trace(at, inputs[i..])
           == before + [at] + if Continues(at, inputs[i]) then Trace(Next(at, inputs[i]), inputs[i + 1..]) else []
    {
      assert inputs[i..][1..] == inputs[i + 1..];
    }

    /** No position of a run inside the code is an immediate byte. */
    ghost predicate OnBoundaries(executed: seq<nat>)
    {
      forall k :: 0 <= k < |executed| && executed[k] < |code| ==> Boundary(code, executed[k])
    }

    lemma {:induction false} TraceOnBoundaries(at: nat, inputs: seq<StepInput>)
      requires at >= |code| || Boundary(code, at)
      ensures OnBoundaries(Trace(at, inputs))
      decreases |inputs|
    {
      if inputs != [] && Continues(at, inputs[0]) {
        NextBoundary(code, at);
        TraceOnBoundaries(Next(at, inputs[0]), inputs[1..]);
      }
    }

    /** Runs as long as there is input; `executed` lists the positions whose byte was taken as an opcode. */
    method Run(inputs: seq<StepInput>) returns (executed: seq<nat>)
      requires Valid()
      modifies this
      ensures Valid() && executed == Trace(old(ip), inputs)
      ensures OnBoundaries(executed)
    {
      TraceOnBoundaries(ip, inputs);
      executed := [];
      var i, running := 0, true;
      while running && i < |inputs|
        invariant 0 <= i <= |inputs| && Valid()
        invariant Trace(old(ip), inputs) == executed + if running then Trace(ip, inputs[i..]) else []
      {
        TraceNext(executed, ip, inputs, i);
        executed := executed + [ip];
        running := Step(inputs[i]);
        i := i + 1;
      }
    }
  }

  /** So the immediate bytes of an instruction are never executed. */
  lemma ImmediatesNeverRun(code: seq<byte>, executed: seq<nat>, i: nat, j: nat)
    requires forall k :: 0 <= k < |executed| && executed[k] < |code| ==> Boundary(code, executed[k])
    requires i < |code| && Boundary(code, i) && i < j <= i + Immediates(code[i]) && j < |code|
    ensures j !in executed
  {
    NextBoundary(code, i);
  }

  /** Whether a byte belongs to the immediates of an instruction of the linear scan. */
  ghost predicate IsImmediate(code: seq<byte>, j: nat)
  {
    j < |code| && exists i: nat :: i < j && Boundary(code, i) && j <= i + Immediates(code[i])
  }

  /**
   * A contract from its deployment to a run: analysed with words of n bytes, stored behind any
   * padding, parsed with words of n' bytes and executed. No immediate byte is ever taken as an opcode.
   */
  method DeployAndRun(code: seq<byte>, n: WordSize, padding: seq<byte>, n': WordSize, inputs: seq<StepInput>)
    returns (execution: Execution, executed: seq<nat>)
    ensures fresh(execution) && execution.code == code && execution.pre.n == n'
    ensures executed == execution.Trace(0, inputs)
    ensures forall j: nat :: IsImmediate(code, j) ==> j !in executed
  {
    var jumps := Analyze(code, n);
    var words := jumps.inner[..];
    assert Analyzed(code, words, n) by {
      assert forall p: nat :: jumps.Get(p) <==> BitAt(words, 8 * n, p);
    }
    var artifacts := Serialize(words, n);
    CachedAnalysisAgrees(code, words, n, padding, n');
    var parsed := ParseBytecode(code + padding + artifacts, |code|, |artifacts|, n');
    execution := new Execution(code, parsed.value.1);
    executed := execution.Run(inputs);
    forall j: nat | IsImmediate(code, j) ensures j !in executed {
      var i: nat :| i < j && Boundary(code, i) && j <= i + Immediates(code[i]);
      ImmediatesNeverRun(code, executed, i, j);
    }
  }
}
