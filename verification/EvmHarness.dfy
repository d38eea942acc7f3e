/** The post-core rollback harness: its bytecode and an interpreter for the instructions it uses. */
module EvmHarness {
  import opened JsBits
  import opened ByteCodec

  // ----- the machine: section 9.4 and Appendix H of the Ethereum Yellow Paper -----

  type Memory = nat -> byte

  /** What the harness sends to another account. */
  datatype Call = Call(to: seq<byte>, value: nat, data: seq<byte>)

  /** `callee` says whether the inner call succeeds; `gas` is what the GAS instruction sees. */
  datatype Env = Env(code: seq<byte>, calldata: seq<byte>, value: nat, gas: nat, callee: Call -> bool)

  datatype Halt = Returned(data: seq<byte>) | Reverted(data: seq<byte>) | Failed

  /** The top of the stack is its first element. */
  datatype Machine =
    | Running(pc: nat, stack: seq<nat>, mem: Memory, calls: seq<Call>)
    | Halted(halt: Halt, calls: seq<Call>)

  /** `size` bytes from `offset` on, zero beyond the end. */
  function Padded(data: seq<byte>, offset: nat, size: nat): (r: seq<byte>)
    ensures |r| == size
    ensures forall i :: 0 <= i < size ==> r[i] == if offset + i < |data| then data[offset + i] else 0
  {
    seq(size, i requires 0 <= i < size => if offset + i < |data| then data[offset + i] else 0)
  }

  function Load(mem: Memory, offset: nat, size: nat): (r: seq<byte>)
    ensures |r| == size && forall i :: 0 <= i < size ==> r[i] == mem(offset + i)
  {
    seq(size, i requires 0 <= i < size => mem(offset + i))
  }

  function Save(mem: Memory, offset: nat, data: seq<byte>): Memory {
    (x: nat) => if offset <= x < offset + |data| then data[x - offset] else mem(x)
  }

  /** The bytes of data behind an instruction. */
  function PushSize(op: byte): nat { if 0x60 <= op <= 0x7f then (op as int) - 0x5f else 0 }

  /** Walking from instruction to instruction, does one start at `target`? */
  predicate StartsInstruction(code: seq<byte>, pc: nat, target: nat)
    decreases |code| - pc
  {
    pc < |code| && (pc == target || StartsInstruction(code, pc + 1 + PushSize(code[pc]), target))
  }

  /** Section 9.4.3: a JUMPDEST that is not part of the data of a push. */
  predicate ValidJump(code: seq<byte>, target: nat) {
    target < |code| && code[target] == 0x5b && StartsInstruction(code, 0, target)
  }

  /** Pops `n` words and pushes `results`. */
  function Continue(m: Machine, n: nat, results: seq<nat>): Machine
    requires m.Running? && n <= |m.stack|
  {
    m.(pc := m.pc + 1, stack := results + m.stack[n..])
  }

  function Step(env: Env, m: Machine): Machine
    requires m.Running?
  {
    var fail := Halted(Failed, m.calls);
    var s, depth := m.stack, |m.stack|;
    if m.pc >= |env.code| then fail
    else
      var op := env.code[m.pc];
      if op == 0x34 then Continue(m, 0, [env.value])
      else if op == 0x36 then Continue(m, 0, [|env.calldata|])
      else if op == 0x37 then
        if depth < 3 then fail
        else Continue(m, 3, []).(mem := Save(m.mem, s[0], Padded(env.calldata, s[1], s[2])))
      else if op == 0x39 then
        if depth < 3 then fail
        else Continue(m, 3, []).(mem := Save(m.mem, s[0], Padded(env.code, s[1], s[2])))
      else if op == 0x52 then
        if depth < 2 then fail
        else Continue(m, 2, []).(mem := Save(m.mem, s[0], ToBE(s[1], 32)))
      else if op == 0x57 then
        if depth < 2 then fail
        else if s[1] == 0 then Continue(m, 2, [])
        else if ValidJump(env.code, s[0]) then Continue(m, 2, []).(pc := s[0])
        else fail
      else if op == 0x5a then Continue(m, 0, [env.gas])
      else if op == 0x5b then Continue(m, 0, [])
      else if PushSize(op) > 0 then
        m.(pc := m.pc + 1 + PushSize(op), stack := [FromBE(Padded(env.code, m.pc + 1, PushSize(op)))] + s)
      else if op == 0xf1 then
        if depth < 7 || s[6] != 0 then fail
        else
          var call := Call(ToBE(s[1], 20), s[2], Load(m.mem, s[3], s[4]));
          Continue(m, 7, [if env.callee(call) then 1 else 0]).(calls := m.calls + [call])
      else if op == 0xf3 then
        if depth < 2 then fail else Halted(Returned(Load(m.mem, s[0], s[1])), m.calls)
      else if op == 0xfd then
        if depth < 2 then fail else Halted(Reverted(Load(m.mem, s[0], s[1])), m.calls)
      else fail
  }

  function Run(env: Env, m: Machine, steps: nat): Machine
    decreases steps
  {
    if steps == 0 || m.Halted? then m else Run(env, Step(env, m), steps - 1)
  }

  function NoMemory(): Memory { _ => 0 }

  function Start(): Machine { Running(0, [], NoMemory(), []) }

  // ----- the harness -----

  function SuccessMarker(): (r: seq<byte>)
    ensures |r| == 32 && forall i :: 0 <= i < 32 ==> r[i] == 0xa5
  {
    seq(32, _ => 0xa5)
  }

  function FailureMarker(): (r: seq<byte>)
    ensures |r| == 32 && forall i :: 0 <= i < 32 ==> r[i] == 0xf1
  {
    seq(32, _ => 0xf1)
  }

  const FORWARD: seq<byte> := [0x36, 0x60, 0x00, 0x60, 0x00, 0x37, 0x60, 0x00, 0x60, 0x00, 0x36, 0x60, 0x00, 0x34, 0x73]
  const BRANCH: seq<byte> := [0x5a, 0xf1, 0x60, 0x51, 0x57, 0x7f]
  const REVERT: seq<byte> := [0x60, 0x00, 0x52, 0x60, 0x20, 0x60, 0x00, 0xfd]

  function RuntimeCode(target: seq<byte>): seq<byte> {
    FORWARD + target + BRANCH + FailureMarker() + REVERT + [0x5b, 0x7f] + SuccessMarker() + REVERT
  }

  const INIT: seq<byte> := [0x60, 0x7b, 0x60, 0x0c, 0x60, 0x00, 0x39, 0x60, 0x7b, 0x60, 0x00, 0xf3]

  function InitCode(target: seq<byte>): seq<byte> { INIT + RuntimeCode(target) }

  /** The layout of the runtime code; the length check of the builder always passes. */
  lemma Layout(target: seq<byte>)
    requires |target| == 20
    ensures var c := RuntimeCode(target);
            && |c| == 0x7b
            && c[..15] == FORWARD && c[15..35] == target && c[35..41] == BRANCH && c[41..73] == FailureMarker()
            && c[73..81] == REVERT && c[81] == 0x5b && c[82] == 0x7f && c[83..115] == SuccessMarker() && c[115..123] == REVERT
  {
    var c1 := FORWARD + target;
    var c2 := c1 + BRANCH;
    var c3 := c2 + FailureMarker();
    var c4 := c3 + REVERT;
    var c5: seq<byte> := c4 + [0x5b, 0x7f];
    var c6 := c5 + SuccessMarker();
    assert |c1| == 35 && |c2| == 41 && |c3| == 73 && |c4| == 81 && |c5| == 83 && |c6| == 115;
  }

  // ----- single steps -----

  lemma PushStep(env: Env, m: Machine, data: seq<byte>)
    requires m.Running? && 1 <= |data| <= 32 && m.pc + 1 + |data| <= |env.code|
    requires (env.code[m.pc] as int) == 0x5f + |data| && env.code[m.pc + 1..m.pc + 1 + |data|] == data
    ensures Step(env, m) == m.(pc := m.pc + 1 + |data|, stack := [FromBE(data)] + m.stack)
  {
    hide FromBE, ToBE, Save, Load, ValidJump, Padded, Continue;
    PushOpcode(env.code[m.pc], |data|);
    assert Padded(env.code, m.pc + 1, |data|) == data;
  }

  lemma PushOpcode(op: byte, n: nat)
    requires (op as int) == 0x5f + n && 1 <= n <= 32
    ensures PushSize(op) == n && 0x60 <= op <= 0x7f
  {
  }

  lemma PushByte(env: Env, m: Machine, x: byte)
    requires m.Running? && m.pc + 1 < |env.code| && env.code[m.pc] == 0x60 && env.code[m.pc + 1] == x
    ensures Step(env, m) == m.(pc := m.pc + 2, stack := [x as int] + m.stack)
  {
    assert env.code[m.pc + 1..m.pc + 2] == [x];
    PushStep(env, m, [x]);
    assert FromBE([x]) == x by { assert [x][..0] == []; }
  }

  lemma At(code: seq<byte>, lo: nat, hi: nat, part: seq<byte>)
    requires lo <= hi <= |code| && code[lo..hi] == part
    ensures forall i :: lo <= i < hi ==> code[i] == part[i - lo]
  {
  }

  lemma RunStep(env: Env, m: Machine, n: nat)
    requires m.Running? && n > 0
    ensures Run(env, m, n) == Run(env, Step(env, m), n - 1)
  {
  }

  /** The code bytes the program counter meets, one per instruction. */
  lemma Forward(target: seq<byte>)
    requires |target| == 20
    ensures var c := RuntimeCode(target);
            && |c| == 0x7b && c[0] == 0x36 && c[1] == 0x60 && c[2] == 0 && c[3] == 0x60 && c[4] == 0 && c[5] == 0x37
            && c[6] == 0x60 && c[7] == 0 && c[8] == 0x60 && c[9] == 0 && c[10] == 0x36 && c[11] == 0x60 && c[12] == 0
            && c[13] == 0x34 && c[14] == 0x73 && c[15..35] == target
  {
    Layout(target);
    var c := RuntimeCode(target);
    hide RuntimeCode;
    ForwardBytes(c);
  }

  lemma ForwardBytes(c: seq<byte>)
    requires |c| == 0x7b && c[..15] == FORWARD
    ensures c[0] == 0x36 && c[1] == 0x60 && c[2] == 0 && c[3] == 0x60 && c[4] == 0 && c[5] == 0x37 && c[6] == 0x60 && c[7] == 0
    ensures c[8] == 0x60 && c[9] == 0 && c[10] == 0x36 && c[11] == 0x60 && c[12] == 0 && c[13] == 0x34 && c[14] == 0x73
  {
    forall i | 0 <= i < 15 ensures c[i] == FORWARD[i] {
      assert c[..15][i] == c[i];
    }
  }

  lemma Branch(target: seq<byte>)
    requires |target| == 20
    ensures var c := RuntimeCode(target);
            && |c| == 0x7b && c[35] == 0x5a && c[36] == 0xf1 && c[37] == 0x60 && c[38] == 0x51 && c[39] == 0x57 && c[40] == 0x7f
            && c[41..73] == FailureMarker() && c[81] == 0x5b && c[82] == 0x7f && c[83..115] == SuccessMarker()
  {
    Layout(target);
    var c := RuntimeCode(target);
    hide RuntimeCode;
    At(c, 35, 41, BRANCH);
  }

  /** The final instructions store a marker at offset 0 and revert with it. */
  predicate RevertsAt(code: seq<byte>, pc: nat) {
    pc + 8 <= |code| && code[pc..pc + 8] == REVERT
  }

  lemma RevertBytes(code: seq<byte>, pc: nat)
    requires RevertsAt(code, pc)
    ensures code[pc] == 0x60 && code[pc + 1] == 0 && code[pc + 2] == 0x52 && code[pc + 3] == 0x60 && code[pc + 4] == 0x20
    ensures code[pc + 5] == 0x60 && code[pc + 6] == 0 && code[pc + 7] == 0xfd
  {
    At(code, pc, pc + 8, REVERT);
    assert REVERT[7] == 0xfd;
  }

  lemma RevertWith(env: Env, pc: nat, marker: seq<byte>, mem: Memory, calls: seq<Call>, n: nat)
    requires RevertsAt(env.code, pc) && |marker| == 32 && n >= 5
    ensures Run(env, Running(pc, [FromBE(marker)], mem, calls), n) == Halted(Reverted(marker), calls)
  {
    hide FromBE, Run, ToBE, Step, Save, Load;
    RevertBytes(env.code, pc);
    var word := FromBE(marker);
    var m0 := Running(pc, [word], mem, calls);
    PushByte(env, m0, 0);
    RunStep(env, m0, n);
    var m1 := Running(pc + 2, [0, word], mem, calls);
    RunStep(env, m1, n - 1);
    StoreWord(env, m1);
    var mem' := Save(mem, 0, ToBE(word, 32));
    var m2 := Running(pc + 3, [], mem', calls);
    PushByte(env, m2, 0x20);
    RunStep(env, m2, n - 2);
    var m3 := Running(pc + 5, [0x20], mem', calls);
    PushByte(env, m3, 0);
    RunStep(env, m3, n - 3);
    var m4 := Running(pc + 7, [0, 0x20], mem', calls);
    RunStep(env, m4, n - 4);
    FromBERoundTrip(marker);
    SavedIsLoaded(mem, marker);
    StopReverts(env, m4);
    RunHalted(env, Step(env, m4), n - 5);
    assert Step(env, m0) == m1;
    assert Step(env, m1) == m2;
    assert Step(env, m2) == m3;
    assert Step(env, m3) == m4;
    assert Step(env, m4) == Halted(Reverted(marker), calls);
  }

  lemma RunHalted(env: Env, m: Machine, n: nat)
    ensures m.Halted? ==> Run(env, m, n) == m
  {
  }

  lemma StoreWord(env: Env, m: Machine)
    requires m.Running? && m.pc < |env.code| && env.code[m.pc] == 0x52 && |m.stack| == 2
    ensures Step(env, m) == Running(m.pc + 1, [], Save(m.mem, m.stack[0], ToBE(m.stack[1], 32)), m.calls)
  {
    hide FromBE, ToBE, Save, Load, ValidJump, Padded;
  }

  lemma StopReverts(env: Env, m: Machine)
    requires m.Running? && m.pc < |env.code| && env.code[m.pc] == 0xfd && |m.stack| == 2
    ensures Step(env, m) == Halted(Reverted(Load(m.mem, m.stack[0], m.stack[1])), m.calls)
  {
    hide FromBE, ToBE, Save, Load, ValidJump, Padded, Continue;
  }

  lemma StopReturns(env: Env, m: Machine)
    requires m.Running? && m.pc < |env.code| && env.code[m.pc] == 0xf3 && |m.stack| == 2
    ensures Step(env, m) == Halted(Returned(Load(m.mem, m.stack[0], m.stack[1])), m.calls)
  {
    hide FromBE, ToBE, Save, Load, ValidJump, Padded, Continue;
  }

  lemma CopyCode(env: Env, m: Machine)
    requires m.Running? && m.pc < |env.code| && env.code[m.pc] == 0x39 && |m.stack| == 3
    ensures Step(env, m) == Running(m.pc + 1, [], Save(m.mem, m.stack[0], Padded(env.code, m.stack[1], m.stack[2])), m.calls)
  {
    hide FromBE, ToBE, Save, Load, ValidJump, Padded;
  }

  lemma CopyData(env: Env, m: Machine)
    requires m.Running? && m.pc < |env.code| && env.code[m.pc] == 0x37 && |m.stack| == 3
    ensures Step(env, m) == Running(m.pc + 1, [], Save(m.mem, m.stack[0], Padded(env.calldata, m.stack[1], m.stack[2])), m.calls)
  {
    hide FromBE, ToBE, Save, Load, ValidJump, Padded;
  }

  /** CALLDATASIZE, CALLVALUE and GAS push a word of the environment. */
  lemma PushEnvironment(env: Env, m: Machine)
    requires m.Running? && m.pc < |env.code| && env.code[m.pc] in {0x34, 0x36, 0x5a}
    ensures var word := if env.code[m.pc] == 0x34 then env.value else if env.code[m.pc] == 0x36 then |env.calldata| else env.gas;
            Step(env, m) == m.(pc := m.pc + 1, stack := [word] + m.stack)
  {
    hide FromBE, ToBE, Save, Load, ValidJump, Padded;
  }

  lemma SavedIsLoaded(mem: Memory, data: seq<byte>)
    ensures Load(Save(mem, 0, data), 0, |data|) == data
  {
    var loaded := Load(Save(mem, 0, data), 0, |data|);
    assert forall i :: 0 <= i < |data| ==> loaded[i] == data[i];
  }

  /** The first four instructions copy the calldata to memory. */
  lemma CopyCalldata(env: Env, target: seq<byte>, n: nat)
    requires |target| == 20 && env.code == RuntimeCode(target) && n >= 4
    ensures Run(env, Start(), n) == Run(env, Running(6, [], Save(NoMemory(), 0, env.calldata), []), n - 4)
  {
    hide Run, RuntimeCode, FromBE, Step, Save, Load;
    Forward(target);
    var size, zero := |env.calldata|, NoMemory();
    RunStep(env, Start(), n);
    var m1 := Running(1, [size], zero, []);
    PushByte(env, m1, 0);
    RunStep(env, m1, n - 1);
    var m2 := Running(3, [0, size], zero, []);
    PushByte(env, m2, 0);
    RunStep(env, m2, n - 2);
    var m3 := Running(5, [0, 0, size], zero, []);
    RunStep(env, m3, n - 3);
    assert Padded(env.calldata, 0, size) == env.calldata;
    PushEnvironment(env, Start());
    assert Step(env, Start()) == m1;
    assert Step(env, m1) == m2;
    assert Step(env, m2) == m3;
    CopyData(env, m3);
    assert Step(env, m3) == Running(6, [], Save(zero, 0, env.calldata), []);
  }

  /** The call the harness makes: the exact calldata and value, to the configured address. */
  function Forwarded(env: Env, target: seq<byte>): Call { Call(target, env.value, env.calldata) }

  /** The next eight instructions push the arguments and call. */
  lemma PushArguments(env: Env, target: seq<byte>, mem: Memory, n: nat)
    requires |target| == 20 && env.code == RuntimeCode(target) && n >= 6
    ensures Run(env, Running(6, [], mem, []), n)
            == Run(env, Running(35, [FromBE(target), env.value, 0, |env.calldata|, 0, 0], mem, []), n - 6)
  {
    hide Run, RuntimeCode, FromBE, Step;
    Forward(target);
    var size := |env.calldata|;
    var m0 := Running(6, [], mem, []);
    var m1 := Running(8, [0], mem, []);
    var m2 := Running(10, [0, 0], mem, []);
    var m3 := Running(11, [size, 0, 0], mem, []);
    var m4 := Running(13, [0, size, 0, 0], mem, []);
    var m5 := Running(14, [env.value, 0, size, 0, 0], mem, []);
    PushByte(env, m0, 0);
    assert Step(env, m0) == m1;
    PushByte(env, m1, 0);
    assert Step(env, m1) == m2;
    PushEnvironment(env, m2);
    assert Step(env, m2) == m3;
    PushByte(env, m3, 0);
    assert Step(env, m3) == m4;
    PushEnvironment(env, m4);
    assert Step(env, m4) == m5;
    PushStep(env, m5, target);
    assert Step(env, m5) == Running(35, [FromBE(target), env.value, 0, size, 0, 0], mem, []);
    RunStep(env, m0, n);
    RunStep(env, m1, n - 1);
    RunStep(env, m2, n - 2);
    RunStep(env, m3, n - 3);
    RunStep(env, m4, n - 4);
    RunStep(env, m5, n - 5);
  }

  lemma MakeCall(env: Env, target: seq<byte>, n: nat)
    requires |target| == 20 && env.code == RuntimeCode(target) && n >= 2
    ensures var mem, call := Save(NoMemory(), 0, env.calldata), Forwarded(env, target);
            Run(env, Running(35, [FromBE(target), env.value, 0, |env.calldata|, 0, 0], mem, []), n)
            == Run(env, Running(37, [if env.callee(call) then 1 else 0], mem, [call]), n - 2)
  {
    hide Run, RuntimeCode, FromBE, ToBE;
    Branch(target);
    var mem, call, size := Save(NoMemory(), 0, env.calldata), Forwarded(env, target), |env.calldata|;
    var ok := if env.callee(call) then 1 else 0;
    var m0 := Running(35, [FromBE(target), env.value, 0, size, 0, 0], mem, []);
    var m1 := Running(36, [env.gas, FromBE(target), env.value, 0, size, 0, 0], mem, []);
    assert Step(env, m0) == m1;
    FromBERoundTrip(target);
    SavedIsLoaded(NoMemory(), env.calldata);
    assert Step(env, m1) == Running(37, [ok], mem, [call]);
    RunStep(env, m0, n);
    RunStep(env, m1, n - 1);
  }

  lemma {:induction false} WalksForward(code: seq<byte>, pc: nat, target: nat)
    requires StartsInstruction(code, pc, target)
    ensures pc <= target
    decreases |code| - pc
  {
    if pc != target {
      WalksForward(code, pc + 1 + PushSize(code[pc]), target);
    }
  }

  lemma {:induction false} WalkContinues(code: seq<byte>, pc: nat, mid: nat, target: nat)
    requires StartsInstruction(code, pc, mid) && mid < target
    ensures StartsInstruction(code, pc, target) <==> StartsInstruction(code, mid, target)
    decreases |code| - pc
  {
    WalksForward(code, pc, mid);
    if pc != mid {
      WalkContinues(code, pc + 1 + PushSize(code[pc]), mid, target);
    }
  }

  /** Jump destinations are JUMPDEST bytes where an instruction starts; the data of a push holds none. */
  lemma PushDataIsNoTarget(code: seq<byte>, pc: nat, target: nat)
    ensures ValidJump(code, target) ==> target < |code| && code[target] == 0x5b
    ensures ValidJump(code, 0) <==> |code| > 0 && code[0] == 0x5b
    ensures StartsInstruction(code, 0, pc) && pc < |code| && 0x60 <= code[pc] <= 0x7f && pc < target <= pc + code[pc] - 0x5f
            ==> !ValidJump(code, target)
  {
    if StartsInstruction(code, 0, pc) && pc < |code| && pc < target <= pc + PushSize(code[pc]) {
      WalkContinues(code, 0, pc, target);
      if StartsInstruction(code, pc, target) {
        WalksForward(code, pc + 1 + PushSize(code[pc]), target);
      }
    }
  }

  /**
   * Whatever the address bytes, walking over the instructions reaches 0x51. The address may itself contain 0x5b:
   * a byte inside push data is no jump destination.
   */
  lemma LandingIsValid(target: seq<byte>)
    requires |target| == 20
    ensures ValidJump(RuntimeCode(target), 0x51)
  {
    hide RuntimeCode;
    Forward(target);
    Branch(target);
    Layout(target);
    var c := RuntimeCode(target);
    RevertBytes(c, 73);
    Walk(c, 78, 0x51);
    Walk(c, 76, 0x51);
    Walk(c, 75, 0x51);
    Walk(c, 73, 0x51);
    Walk(c, 40, 0x51);
    Walk(c, 39, 0x51);
    Walk(c, 37, 0x51);
    Walk(c, 36, 0x51);
    Walk(c, 35, 0x51);
    Walk(c, 14, 0x51);
    Walk(c, 13, 0x51);
    Walk(c, 11, 0x51);
    Walk(c, 10, 0x51);
    Walk(c, 8, 0x51);
    Walk(c, 6, 0x51);
    Walk(c, 5, 0x51);
    Walk(c, 3, 0x51);
    Walk(c, 1, 0x51);
    Walk(c, 0, 0x51);
  }

  lemma Walk(code: seq<byte>, pc: nat, target: nat)
    requires pc < |code|
    ensures StartsInstruction(code, pc, target) <==> pc == target || StartsInstruction(code, pc + 1 + PushSize(code[pc]), target)
  {
  }

  /** The branch on the outcome of the call, and the revert with its marker. */
  lemma BranchOnResult(env: Env, target: seq<byte>, ok: nat, mem: Memory, calls: seq<Call>, n: nat)
    requires |target| == 20 && env.code == RuntimeCode(target) && n >= 9
    ensures Run(env, Running(37, [ok], mem, calls), n)
            == Halted(Reverted(if ok == 0 then FailureMarker() else SuccessMarker()), calls)
  {
    hide Run, RuntimeCode, FromBE, ToBE, ValidJump, RevertsAt;
    Branch(target);
    Layout(target);
    LandingIsValid(target);
    MarkersRevert(target);
    var m0 := Running(37, [ok], mem, calls);
    var m1 := Running(39, [0x51, ok], mem, calls);
    PushByte(env, m0, 0x51);
    assert Step(env, m0) == m1;
    RunStep(env, m0, n);
    RunStep(env, m1, n - 1);
    if ok == 0 {
      var m2 := Running(40, [], mem, calls);
      assert Step(env, m1) == m2;
      PushStep(env, m2, FailureMarker());
      assert Step(env, m2) == Running(73, [FromBE(FailureMarker())], mem, calls);
      RunStep(env, m2, n - 2);
      RevertWith(env, 73, FailureMarker(), mem, calls, n - 3);
    } else {
      var m2 := Running(81, [], mem, calls);
      assert Step(env, m1) == m2;
      var m3 := Running(82, [], mem, calls);
      assert Step(env, m2) == m3;
      RunStep(env, m2, n - 2);
      PushStep(env, m3, SuccessMarker());
      assert Step(env, m3) == Running(115, [FromBE(SuccessMarker())], mem, calls);
      RunStep(env, m3, n - 3);
      RevertWith(env, 115, SuccessMarker(), mem, calls, n - 4);
    }
  }

  lemma MarkersRevert(target: seq<byte>)
    requires |target| == 20
    ensures RevertsAt(RuntimeCode(target), 73) && RevertsAt(RuntimeCode(target), 115)
  {
    Layout(target);
  }

  /** A word of 32 equal bytes. */
  function Filled(b: byte): (r: seq<byte>)
    ensures |r| == 32 && forall i :: 0 <= i < 32 ==> r[i] == b
  {
    seq(32, _ => b)
  }

  lemma MarkersAre()
    ensures SuccessMarker() == Filled(0xa5) && FailureMarker() == Filled(0xf1)
  {
  }

  lemma ForwardedIs(env: Env, target: seq<byte>)
    requires |target| == 20
    ensures Forwarded(env, target) == Call(target, env.value, env.calldata)
  {
  }

  /**
   * For every address, calldata, value and outcome of the inner call: exactly one call is made, with that
   * calldata and value, and the outer frame reverts with the success marker if and only if it succeeded.
   */
  lemma HarnessAlwaysReverts(env: Env, target: seq<byte>, n: nat)
    requires |target| == 20 && env.code == RuntimeCode(target) && n >= 21
    ensures var call := Call(target, env.value, env.calldata);
            Run(env, Start(), n) == Halted(Reverted(if env.callee(call) then Filled(0xa5) else Filled(0xf1)), [call])
  {
    ForwardedIs(env, target);
    MarkersAre();
    hide *;
    var mem, call := Save(NoMemory(), 0, env.calldata), Forwarded(env, target);
    CopyCalldata(env, target, n);
    PushArguments(env, target, mem, n - 4);
    MakeCall(env, target, n - 10);
    BranchOnResult(env, target, if env.callee(call) then 1 else 0, mem, [call], n - 12);
  }

  lemma MarkersDiffer()
    ensures SuccessMarker() != FailureMarker()
  {
    assert SuccessMarker()[0] != FailureMarker()[0];
  }

  lemma InitBytes(c: seq<byte>)
    requires |c| >= 12 && c[..12] == INIT
    ensures c[0] == 0x60 && c[1] == 0x7b && c[2] == 0x60 && c[3] == 0x0c && c[4] == 0x60 && c[5] == 0
    ensures c[6] == 0x39 && c[7] == 0x60 && c[8] == 0x7b && c[9] == 0x60 && c[10] == 0 && c[11] == 0xf3
  {
    forall i | 0 <= i < 12 ensures c[i] == INIT[i] {
      assert c[..12][i] == c[i];
    }
  }

  /** The init code returns exactly the runtime code and calls nothing. */
  lemma InitReturnsRuntime(env: Env, target: seq<byte>, n: nat)
    requires |target| == 20 && env.code == InitCode(target) && n >= 7
    ensures Run(env, Start(), n) == Halted(Returned(RuntimeCode(target)), [])
  {
    hide Run, RuntimeCode, FromBE, Step, Save, Load;
    Layout(target);
    var c, zero, runtime := env.code, NoMemory(), RuntimeCode(target);
    assert c[..12] == INIT;
    InitBytes(c);
    assert Padded(c, 12, 0x7b) == runtime;
    var mem := Save(zero, 0, runtime);
    var m0 := Start();
    var m1 := Running(2, [0x7b], zero, []);
    var m2 := Running(4, [0x0c, 0x7b], zero, []);
    var m3 := Running(6, [0, 0x0c, 0x7b], zero, []);
    var m4 := Running(7, [], mem, []);
    var m5 := Running(9, [0x7b], mem, []);
    var m6 := Running(11, [0, 0x7b], mem, []);
    PushByte(env, m0, 0x7b);
    assert Step(env, m0) == m1;
    PushByte(env, m1, 0x0c);
    assert Step(env, m1) == m2;
    PushByte(env, m2, 0);
    assert Step(env, m2) == m3;
    CopyCode(env, m3);
    assert Step(env, m3) == m4;
    PushByte(env, m4, 0x7b);
    assert Step(env, m4) == m5;
    PushByte(env, m5, 0);
    assert Step(env, m5) == m6;
    SavedIsLoaded(zero, runtime);
    StopReturns(env, m6);
    assert Step(env, m6) == Halted(Returned(runtime), []);
    RunStep(env, m0, n);
    RunStep(env, m1, n - 1);
    RunStep(env, m2, n - 2);
    RunStep(env, m3, n - 3);
    RunStep(env, m4, n - 4);
    RunStep(env, m5, n - 5);
    RunStep(env, m6, n - 6);
    RunHalted(env, Step(env, m6), n - 7);
  }
}
