/**
 C's variable arguments on the two targets: an endless row of argument slots and
 a position in it.  On the 32-bit target a slot has 32 bits and a `long long`
 takes two; on the 64-bit target every argument takes one slot of 64 bits.
 */
module VarArgs {
  import opened Machine

  datatype Abi = Ia32 | Amd64

  /** The argument types the formatters ask for; `Pointer` is `const char*`. */
  datatype ArgType = Int | Long | LongLong | Pointer

  /** The slots of a call, and the C string found at each address. */
  datatype Env = Env(abi: Abi, slots: nat -> nat, text: nat -> string)

  function SlotBits(abi: Abi): nat {
    if abi.Ia32? then 32 else 64
  }

  function BitsOf(abi: Abi, t: ArgType): nat {
    match t
    case Int => 32
    case Long => SlotBits(abi)
    case LongLong => 64
    case Pointer => SlotBits(abi)
  }

  function SlotsOf(abi: Abi, t: ArgType): nat {
    if abi.Ia32? && t.LongLong? then 2 else 1
  }

  /** `va_arg`: the bits of an argument of type `t` at position `pos`. */
  function Fetch(env: Env, t: ArgType, pos: nat): u64 {
    if env.abi.Ia32? && t.LongLong? then
      env.slots(pos) % TWO32 + TWO32 * (env.slots(pos + 1) % TWO32)
    else if BitsOf(env.abi, t) == 32 then env.slots(pos) % TWO32
    else env.slots(pos) % TWO64
  }

  /** An argument's bits as a signed number. */
  function AsSigned(abi: Abi, t: ArgType, bits: u64): int {
    if BitsOf(abi, t) == 32 then Signed32(bits % TWO32) else Signed64(bits)
  }

  /** The slots of a call that passes one argument; `junk` is what else is in them. */
  function Pass(env: Env, t: ArgType, bits: u64, junk: nat -> nat): Env {
    Env(env.abi,
        (i: nat) =>
          if i == 0 then (if BitsOf(env.abi, t) == 32 || env.abi.Ia32? then bits % TWO32 + TWO32 * junk(0) else bits)
          else if i == 1 && env.abi.Ia32? && t.LongLong? then bits / TWO32
          else junk(i),
        env.text)
  }

  /** An argument fetched, passed on and fetched again is the same argument. */
  lemma PassedOn(env: Env, t: ArgType, pos: nat, junk: nat -> nat)
    ensures Fetch(Pass(env, t, Fetch(env, t, pos), junk), t, 0) == Fetch(env, t, pos)
  {
    var bits := Fetch(env, t, pos);
    if env.abi.Ia32? && t.LongLong? {
      assert bits / TWO32 < TWO32;
    }
  }
}
