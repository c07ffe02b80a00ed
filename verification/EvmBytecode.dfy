/** EVM byte code: its instruction boundaries and its valid jump destinations. */
module EvmBytecode {
  import opened Words

  type Code = seq<Byte>

  const EQ: Byte := 0x14
  const JUMPI: Byte := 0x57
  const JUMPDEST: Byte := 0x5B
  const PUSH2: Byte := 0x61
  const PUSH4: Byte := 0x63
  const DUP1: Byte := 0x80

  /** Number of immediate bytes after an opcode: n for PUSHn, else none. */
  function Immediates(op: Byte): (n: nat)
    ensures n <= 32
  {
    if 0x60 <= op <= 0x7F then op - 0x5F else 0
  }

  /** The instruction after the one at `pc`. */
  function Next(code: Code, pc: nat): nat
    requires pc < |code|
  {
    pc + 1 + Immediates(code[pc])
  }

  /** The forward sweep from `pc` meets an instruction at `p`. */
  predicate Sweeps(code: Code, pc: nat, p: nat)
    decreases |code| - pc
  {
    pc < |code| && (pc == p || Sweeps(code, Next(code, pc), p))
  }

  /** A valid jump destination: section 9.4.3 of the Ethereum Yellow Paper. */
  predicate ValidJumpDest(code: Code, p: nat) {
    p < |code| && code[p] == JUMPDEST && Sweeps(code, 0, p)
  }

  /** The byte at `q`, read as an instruction, has `p` among its immediates. */
  predicate Covers(code: Code, q: nat, p: nat)
    requires q < |code|
  {
    q < p <= q + Immediates(code[q])
  }

  /** No byte of the 32 before `p` could be a PUSH that covers `p`. */
  predicate WindowClear(code: Code, p: nat)
    requires p < |code|
  {
    forall q :: 0 <= q < p <= q + 32 ==> !Covers(code, q, p)
  }

  /** A clear window is enough for the sweep not to jump over `p`. */
  lemma {:induction false} ClearWindowIsSwept(code: Code, pc: nat, p: nat)
    requires pc <= p < |code| && WindowClear(code, p)
    ensures Sweeps(code, pc, p)
    decreases p - pc
  {
    if pc < p {
      assert !Covers(code, pc, p);
      ClearWindowIsSwept(code, Next(code, pc), p);
    }
  }

  /** The window test is sound and not complete: this JUMPDEST follows a PUSH1 0x60. */
  lemma ClearWindowIsNotNecessary()
    ensures var code: Code := [0x60, 0x60, JUMPDEST];
            ValidJumpDest(code, 2) && !WindowClear(code, 2)
  {
    var code: Code := [0x60, 0x60, JUMPDEST];
    assert Next(code, 0) == 2;
    assert Sweeps(code, 2, 2);
    assert Covers(code, 1, 2);
  }
}
