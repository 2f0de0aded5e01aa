/**
  Shared types of the application: the viewer configuration with its
  defaults, the uploaded file, the PDF MIME filter used by every upload
  entry point, and the unit selection of `formatBytes`.
 */
module Types {
  import opened Wrappers

  /** The viewer configuration; `flipSpeed` is in milliseconds. */
  datatype Config = Config(
    flipSpeed: int,
    isHardCover: bool,
    useSound: bool,
    shadowIntensity: int,
    scale: real)

  const DefaultConfig := Config(1000, true, true, 32, 1.0)

  /** The parts of a browser `File` the application reads. */
  datatype File = File(name: string, size: nat, mime: string)

  const PdfMime := "application/pdf"

  predicate IsPdf(f: File) {
    f.mime == PdfMime
  }

  /** `files?.[0]` kept only when its type is exactly `application/pdf`. */
  function FirstPdf(files: seq<File>): (r: Option<File>)
    ensures r.Some? <==> |files| > 0 && files[0].mime == PdfMime
    ensures r.Some? ==> r.value == files[0]
  {
    if |files| > 0 && IsPdf(files[0]) then Some(files[0]) else None
  }

  const Kilo: nat := 1024
  const Units: seq<string> := ["B", "KB", "MB", "GB", "TB"]

  function Pow1024(i: nat): (p: nat)
    ensures p >= 1
  {
    if i == 0 then 1 else Kilo * Pow1024(i - 1)
  }

  /** The largest `i` with `1024^i <= bytes`, what `floor(log(bytes) / log(1024))` computes. */
  function UnitIndex(bytes: nat): (i: nat)
    requires bytes >= 1
    ensures Pow1024(i) <= bytes < Pow1024(i + 1)
  {
    if bytes < Kilo then 0 else 1 + UnitIndex(bytes / Kilo)
  }

  /** The same index found by counting up, as a reference for `UnitIndex`. */
  method FindUnitIndex(bytes: nat) returns (i: nat)
    requires bytes >= 1
    ensures Pow1024(i) <= bytes < Pow1024(i + 1)
  {
    i := 0;
    var p: nat := 1;
    while p * Kilo <= bytes
      invariant p == Pow1024(i)
      invariant p <= bytes
    {
      p := p * Kilo;
      i := i + 1;
    }
  }

  /**
    What `formatBytes` shows: either the literal `0 B`, or a number scaled
    into the unit `Units[index]`, rounded to `decimals` places, followed by
    that unit.
   */
  datatype ByteLabel = ZeroBytes | Scaled(amount: real, decimals: nat, index: nat)

  function FormatBytes(bytes: nat, decimals: int): (r: ByteLabel)
    requires bytes < Pow1024(5)
    ensures bytes == 0 <==> r.ZeroBytes?
    ensures r.Scaled? ==>
      && r.index < |Units|
      && Pow1024(r.index) <= bytes < Pow1024(r.index + 1)
      && r.amount * Pow1024(r.index) as real == bytes as real
      && 1.0 <= r.amount < Kilo as real
      && r.decimals == (if decimals < 0 then 0 else decimals)
  {
    if bytes == 0 then ZeroBytes
    else
      var i := UnitIndex(bytes);
      UnitBelowFive(bytes, i);
      Scaled(Scale(bytes, i), if decimals < 0 then 0 else decimals, i)
  }

  /** `bytes / 1024^i`, exactly; it lies in [1, 1024) when `1024^i <= bytes < 1024^(i+1)`. */
  function Scale(bytes: nat, i: nat): (a: real)
    ensures a * Pow1024(i) as real == bytes as real
    ensures Pow1024(i) <= bytes < Pow1024(i + 1) ==> 1.0 <= a < Kilo as real
  {
    var p := Pow1024(i);
    assert Pow1024(i + 1) == Kilo * p;
    bytes as real / p as real
  }

  /** Only one `i` has `1024^i <= bytes < 1024^(i+1)`, so the recursive and the counting definitions agree. */
  lemma UnitIndexUnique(bytes: nat, i: nat)
    requires Pow1024(i) <= bytes < Pow1024(i + 1)
    ensures i == UnitIndex(bytes)
  {
    var u := UnitIndex(bytes);
    if i < u {
      Pow1024Monotone(i + 1, u);
    } else if u < i {
      Pow1024Monotone(u + 1, i);
    }
  }

  lemma UnitBelowFive(bytes: nat, i: nat)
    requires Pow1024(i) <= bytes < Pow1024(5)
    ensures i < 5
  {
    if i >= 5 {
      Pow1024Monotone(5, i);
    }
  }

  lemma {:induction false} Pow1024Monotone(i: nat, j: nat)
    requires i <= j
    ensures Pow1024(i) <= Pow1024(j)
  {
    if i < j {
      Pow1024Monotone(i, j - 1);
    }
  }

  /**
    The rendered label, given the decimal rendering `numeral` of the scaled
    amount (which this model does not compute).
   */
  function ByteLabelText(l: ByteLabel, numeral: string): (s: string)
    requires l.Scaled? ==> l.index < |Units|
    ensures (forall k :: 0 <= k < |numeral| ==> numeral[k] != ' ') ==>
      ((exists k :: 0 <= k < |s| && s[k] == ' ') <==> l.ZeroBytes?)
  {
    match l
    case ZeroBytes =>
      assert "0 B"[1] == ' ';
      "0 B"
    case Scaled(_, _, i) =>
      assert forall k :: 0 <= k < |Units[i]| ==> Units[i][k] != ' ';
      numeral + Units[i]
  }
}
