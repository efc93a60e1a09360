/** Bounded capture of the caller's program counters (`callers`) and their
    conversion into a stack trace of frames (`stack.StackTrace`). */
module Stack {

  /** A program counter, Go's `uintptr` on a 64-bit platform. */
  type Uintptr = x: int | 0 <= x < 0x1_0000_0000_0000_0000

  /** A `perrors.Frame`: a program counter reinterpreted as a stack frame.
      Symbolication (function, file, line) happens only when it is formatted,
      which this model leaves abstract. */
  datatype Frame = Frame(pc: Uintptr)

  /** Size of the fixed buffer that `callers` fills. */
  const Depth: nat := 32

  /** Frames `runtime.Callers` is asked to skip: its own, `callers`, and the
      frames of this package between the public entry point and `callers`. */
  const Skip: nat := 5

  function Min(a: nat, b: nat): nat
  {
    if a <= b then a else b
  }

  /** The program counters `callers` records when the active call chain is
      `chain`: element 0 is the frame of `runtime.Callers` itself and each
      later element is the caller of the one before. */
  function Capture(chain: seq<Uintptr>): (st: seq<Uintptr>)
    ensures |st| <= Depth
    ensures |chain| <= Skip ==> st == []
    ensures |chain| > Skip ==> |st| == Min(Depth, |chain| - Skip)
    ensures forall i :: 0 <= i < |st| ==> Skip + i < |chain| && st[i] == chain[Skip + i]
  {
    if |chain| <= Skip then [] else chain[Skip .. Skip + Min(Depth, |chain| - Skip)]
  }

  /** `callers`: fills a fixed buffer of `Depth` program counters, skipping
      the innermost `Skip` frames, and keeps the filled prefix. */
  method Callers(chain: seq<Uintptr>) returns (st: seq<Uintptr>)
    ensures st == Capture(chain)
  {
    var pcs := new Uintptr[Depth];
    var n := 0;
    while n < Depth && Skip + n < |chain|
      invariant 0 <= n <= Depth
      invariant n == 0 || Skip + n <= |chain|
      invariant forall i :: 0 <= i < n ==> pcs[i] == chain[Skip + i]
    {
      pcs[n] := chain[Skip + n];
      n := n + 1;
    }
    st := pcs[..n];
  }

  /** The frames of a captured stack: one per program counter, in order. */
  function Frames(st: seq<Uintptr>): (f: seq<Frame>)
    ensures |f| == |st|
    ensures forall i :: 0 <= i < |st| ==> f[i].pc == st[i]
  {
    seq(|st|, i requires 0 <= i < |st| => Frame(st[i]))
  }

  /** `stack.StackTrace`: fills a frame array by index. */
  method StackTrace(st: seq<Uintptr>) returns (frames: seq<Frame>)
    ensures frames == Frames(st)
  {
    var f := new Frame[|st|];
    for i := 0 to |st|
      invariant forall j :: 0 <= j < i ==> f[j] == Frame(st[j])
    {
      f[i] := Frame(st[i]);
    }
    frames := f[..];
  }
}
