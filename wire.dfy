/** Shared vocabulary of the wire codec: fixed-width integers, the exceptions the
    C# code throws (as error values), and a cursor result for readers that
    advance a `ref int offset`. */
module Wire {

  /** A .NET `byte`. */
  type byte = b: int | 0 <= b < 0x100
  /** A .NET `ushort` (also a UTF-16 code unit, a .NET `char`). */
  type uint16 = x: int | 0 <= x < 0x1_0000
  /** A .NET `uint`. */
  type uint32 = x: int | 0 <= x < 0x1_0000_0000
  /** A .NET `int`. */
  type int32 = x: int | -0x8000_0000 <= x < 0x8000_0000

  /** The exceptions the codec can raise. */
  datatype Error =
    | IndexOutOfRange     // an array index past the end of the buffer
    | ArgumentOutOfRange  // `Encoding.GetString` or a range slice that runs past the end
    | InvalidQuestion     // the explicit guard of ParseQuestion
    | HeaderTooLong       // the explicit guard of Header.Parse
    | ArgumentError       // `Array.CopyTo` into too little room

  datatype Option<+T> = None | Some(value: T)

  datatype Result<+T> = Ok(value: T) | Err(error: Error)

  /** A value read from a buffer together with the offset just after it. */
  datatype Cursor<+T> = Cursor(value: T, next: nat)

  /** Puts `xs` in front of the items of a successful read of a sequence. */
  function Prepend<T>(xs: seq<T>, r: Result<Cursor<seq<T>>>): Result<Cursor<seq<T>>>
  {
    match r
    case Ok(c) => Ok(Cursor(xs + c.value, c.next))
    case Err(e) => Err(e)
  }

  lemma PrependPrepend<T>(xs: seq<T>, ys: seq<T>, r: Result<Cursor<seq<T>>>)
    ensures Prepend(xs, Prepend(ys, r)) == Prepend(xs + ys, r)
  {
    if r.Ok? {
      assert xs + (ys + r.value.value) == (xs + ys) + r.value.value;
    }
  }

  lemma PrependNothing<T>(r: Result<Cursor<seq<T>>>)
    ensures Prepend([], r) == r
  {
    if r.Ok? {
      assert [] + r.value.value == r.value.value;
    }
  }

  /** Runs a cursor-advancing reader `n` times from `off`, each read starting
      where the previous one ended; the first failure is the result. */
  function Repeat<T>(read: (seq<byte>, nat) -> Result<Cursor<T>>, m: seq<byte>, off: nat, n: nat)
    : (r: Result<Cursor<seq<T>>>)
    ensures r.Ok? ==> |r.value.value| == n
    decreases n
  {
    if n == 0 then Ok(Cursor([], off))
    else
      match read(m, off)
      case Err(e) => Err(e)
      case Ok(c) => Prepend([c.value], Repeat(read, m, c.next, n - 1))
  }

  /** A counted loop over `Repeat` takes one more step with the result `r` of
      its next read: a successful read moves its item to the items read so
      far, a failed read fails the whole run. */
  lemma RepeatStep<T>(read: (seq<byte>, nat) -> Result<Cursor<T>>, m: seq<byte>, whole: Result<Cursor<seq<T>>>,
                      done: seq<T>, off: nat, n: nat, r: Result<Cursor<T>>)
    requires n > 0 && r == read(m, off)
    requires whole == Prepend(done, Repeat(read, m, off, n))
    ensures r.Err? ==> whole == Err(r.error)
    ensures r.Ok? ==> whole == Prepend(done + [r.value.value], Repeat(read, m, r.value.next, n - 1))
  {
    if r.Ok? {
      PrependPrepend(done, [r.value.value], Repeat(read, m, r.value.next, n - 1));
    }
  }

  /** One read that succeeds is a run of one. */
  lemma RepeatOnce<T>(read: (seq<byte>, nat) -> Result<Cursor<T>>, m: seq<byte>, off: nat, c: Cursor<T>)
    requires read(m, off) == Ok(c)
    ensures Repeat(read, m, off, 1) == Ok(Cursor([c.value], c.next))
  {
    assert [c.value] + [] == [c.value];
  }
}
