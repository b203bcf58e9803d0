/// Shared value types: an optional value, the kernel's error kinds and a
/// result carrying either a value or one of those errors.
module Common {

  datatype Option<T> = None | Some(value: T)

  /// The error kinds the kernel returns. The kernel groups some of them under
  /// file-system, I/O and mapping sub-enums; here they are one flat list.
  datatype Error =
    | InvalidValue | NotSupported | BadFd | NotPermitted | NotASocket
    | TryAgain | SeekPipe | NoChildProcess | Fault | BrokenPipe
    | AddressFamilyNotSupported | NameTooLong | Interrupted | NoProcess
    // file-system errors
    | NotFound | NotADirectory | IsADirectory | InvalidFs | AlreadyExists
    | InvalidInput
    // I/O errors
    | OutOfBounds | MetadataCorruption
    // page-table mapping errors
    | VirtNotAligned | NotL3Mapped
    // no free virtual range is large enough
    | OutOfMemory

  datatype Result<T> = Ok(value: T) | Err(error: Error)

  type byte = x: int | 0 <= x < 256

  /// The bytes of an ASCII string.
  function Ascii(s: string): (b: seq<byte>)
    requires forall i :: 0 <= i < |s| ==> s[i] as int < 128
    ensures |b| == |s| && forall i :: 0 <= i < |s| ==> b[i] == s[i] as int
  {
    seq(|s|, i requires 0 <= i < |s| => s[i] as int)
  }

  const U16_MAX: nat := 0xFFFF
  const U32_LIMIT: nat := 0x1_0000_0000
  const U64_LIMIT: nat := 0x1_0000_0000_0000_0000

  /// Two to the power `n`.
  function Pow2(n: nat): (r: nat)
    ensures r >= 1
  {
    if n == 0 then 1 else 2 * Pow2(n - 1)
  }

  function Min(a: int, b: int): (r: int)
    ensures r <= a && r <= b && (r == a || r == b)
  {
    if a <= b then a else b
  }

  function Max(a: int, b: int): (r: int)
    ensures r >= a && r >= b && (r == a || r == b)
  {
    if a >= b then a else b
  }

  lemma {:induction false} Pow2Add(a: nat, b: nat)
    ensures Pow2(a) * Pow2(b) == Pow2(a + b)
    decreases a
  {
    if a > 0 { Pow2Add(a - 1, b); }
  }

  /// `x / d < n` whenever `x < n * d`.
  lemma DivBelow(x: nat, d: nat, n: nat)
    requires d > 0 && x < n * d
    ensures x / d < n
  {
    if x / d >= n {
      assert (x / d) * d >= n * d by { MulLe(n, x / d, d); }
    }
  }

  lemma MulLe(a: nat, b: nat, c: nat)
    requires a <= b
    ensures a * c <= b * c
  {
  }

  /// Slot `k` of width `d` starts at `k * d` and ends within `n * d` when `k < n`.
  lemma SlotWithin(k: nat, d: nat, n: nat)
    requires k < n
    ensures k * d + d <= n * d
  {
    MulLe(k + 1, n, d);
  }

  /// A multiple of `c` strictly between `-c` and `c` is zero.
  lemma SmallMultiple(k: int, c: int)
    requires c > 0 && -c < k * c < c
    ensures k == 0
  {
    if k > 0 {
      MulLe(1, k, c);
    } else if k < 0 {
      assert (-k) * c == -(k * c);
      MulLe(1, -k, c);
    }
  }

  /// Dividing `a * c + q` by `c` gives `a`, remainder `q`, when `q < c`.
  lemma DivAdd(a: nat, c: nat, q: nat)
    requires q < c
    ensures (a * c + q) / c == a && (a * c + q) % c == q
  {
    var x := a * c + q;
    var d := x / c;
    assert (d - a) * c == q - x % c;
    SmallMultiple(d - a, c);
  }
}
