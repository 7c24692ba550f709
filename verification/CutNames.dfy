/** Names on the wire: UTF-16, written little-endian and read in whichever order their zero bytes suggest.
    A string is the sequence of its UTF-16 code units. */
module CutNames {
  import opened Bytes

  /** A UTF-16 code unit. */
  type Unit = x: int | 0 <= x < 0x1_0000
  type Name = seq<Unit>

  const BLANK: Unit := 0x20

  function Wide(name: Name): (r: seq<byte>)
    ensures |r| == 2 * |name|
  {
    seq(2 * |name|, i requires 0 <= i < 2 * |name| => if i % 2 == 0 then name[i / 2] % 256 else name[i / 2] / 256)
  }

  /** The units of the bytes in one order; an odd last byte is dropped. */
  function Narrow(b: seq<byte>, big: bool): (r: Name)
    ensures |r| == |b| / 2
  {
    seq(|b| / 2, i requires 0 <= i < |b| / 2 => UnitAt(b, i, big))
  }

  function UnitAt(b: seq<byte>, i: nat, big: bool): Unit
    requires i < |b| / 2
  {
    var first: int := b[2 * i];
    var second: int := b[2 * i + 1];
    if big then first * 256 + second else first + second * 256
  }

  // ---- surrogates ----

  const REPLACEMENT: Unit := 0xfffd

  predicate Surrogate(u: Unit) { 0xd800 <= u <= 0xdfff }

  /** The first two units are one character beyond the basic plane. */
  predicate Paired(name: Name) { |name| >= 2 && 0xd800 <= name[0] <= 0xdbff && 0xdc00 <= name[1] <= 0xdfff }

  function Plain(u: Unit): Unit { if Surrogate(u) then REPLACEMENT else u }

  /** Valid text: every surrogate is half of a pair. */
  predicate WellFormed(name: Name) {
    name == [] || (if Paired(name) then WellFormed(name[2..]) else !Surrogate(name[0]) && WellFormed(name[1..]))
  }

  predicate BasicPlane(name: Name) { forall i :: 0 <= i < |name| ==> !Surrogate(name[i]) }

  /** What reading as UTF-16 makes of the units: an unpaired surrogate is replaced. */
  function Repaired(name: Name): (r: Name)
    ensures |r| == |name|
  {
    if name == [] then []
    else if Paired(name) then name[..2] + Repaired(name[2..])
    else [Plain(name[0])] + Repaired(name[1..])
  }

  /** One unit a character: whatever is beyond the basic plane is replaced. */
  function Flattened(name: Name): (r: Name)
    ensures |r| <= |name| && (name != [] ==> r != [])
  {
    if name == [] then []
    else if Paired(name) then [REPLACEMENT] + Flattened(name[2..])
    else [Plain(name[0])] + Flattened(name[1..])
  }

  lemma {:induction false} RepairedIff(name: Name)
    ensures Repaired(name) == name <==> WellFormed(name)
    decreases |name|
  {
    if name != [] {
      var n := if Paired(name) then 2 else 1;
      RepairedIff(name[n..]);
      assert name == name[..n] + name[n..];
      assert Repaired(name)[n..] == Repaired(name[n..]) && Repaired(name)[..1] == [Repaired(name)[0]];
    }
  }

  lemma {:induction false} RepairedKeeps(name: Name, i: nat)
    requires i < |name| && !Surrogate(name[i])
    ensures Repaired(name)[i] == name[i]
    decreases |name|
  {
    var n := if Paired(name) then 2 else 1;
    if i >= n {
      RepairedKeeps(name[n..], i - n);
    }
  }

  lemma {:induction false} FlattenedIff(name: Name)
    ensures Flattened(name) == name <==> BasicPlane(name)
    ensures BasicPlane(Flattened(name))
    decreases |name|
  {
    if name != [] {
      var n := if Paired(name) then 2 else 1;
      FlattenedIff(name[n..]);
      var r := Flattened(name);
      assert r[1..] == Flattened(name[n..]);
      assert forall i :: 0 <= i < |r| ==> r[i] == if i == 0 then r[0] else r[1..][i - 1];
      assert name[0] == r[0] && !Paired(name) ==> name == [r[0]] + name[1..];
      assert forall i :: 0 <= i < |name| - n ==> name[n..][i] == name[n + i];
    }
  }

  lemma {:induction false} BasicIsWellFormed(name: Name)
    requires BasicPlane(name)
    ensures WellFormed(name) && Repaired(name) == name
    decreases |name|
  {
    if name != [] {
      BasicIsWellFormed(name[1..]);
      assert name == [name[0]] + name[1..];
    }
  }

  // ---- the guess ----

  /** Pairs whose zero byte comes first, and pairs whose zero byte comes second. */
  function ZeroFirst(b: seq<byte>, n: nat): nat
    requires 2 * n <= |b|
  {
    if n == 0 then 0 else ZeroFirst(b, n - 1) + if b[2 * n - 2] == 0 && b[2 * n - 1] != 0 then 1 else 0
  }

  function ZeroSecond(b: seq<byte>, n: nat): nat
    requires 2 * n <= |b|
  {
    if n == 0 then 0 else ZeroSecond(b, n - 1) + if b[2 * n - 1] == 0 && b[2 * n - 2] != 0 then 1 else 0
  }

  predicate LooksBig(b: seq<byte>) { ZeroFirst(b, |b| / 2) > ZeroSecond(b, |b| / 2) }

  method LooksBigEndian(b: seq<byte>) returns (r: bool)
    ensures r == LooksBig(b)
  {
    var low, high := 0, 0;
    var i := 0;
    while i + 1 < |b|
      invariant 0 <= i <= |b| && i % 2 == 0
      invariant high == ZeroFirst(b, i / 2) && low == ZeroSecond(b, i / 2)
    {
      assert (i + 2) / 2 == i / 2 + 1 && 2 * (i / 2) == i;
      if b[i] == 0 && b[i + 1] != 0 {
        high := high + 1;
      }
      if b[i + 1] == 0 && b[i] != 0 {
        low := low + 1;
      }
      i := i + 2;
    }
    r := high > low;
  }

  /** Without trailing blanks and NULs. */
  function Trim(name: Name): (r: Name)
    ensures r <= name
  {
    if name != [] && (name[|name| - 1] == BLANK || name[|name| - 1] == 0) then Trim(name[..|name| - 1]) else name
  }

  /** The sender's order if it declared one, else the one its zero bytes suggest. */
  function DecodeName(b: seq<byte>, big: Option<bool>): Name {
    Trim(Repaired(Narrow(b, if big.Some? then big.value else LooksBig(b))))
  }

  /** What the guess makes of a written name. */
  function Reread(name: Name): Name { DecodeName(Wide(name), None) }

  /** At least as many units below 256 as with a zero low byte, no unpaired surrogate, and no blank or NUL at the end. */
  predicate Survives(name: Name) {
    !LooksBig(Wide(name)) && WellFormed(name) && (name == [] || (name[|name| - 1] != BLANK && name[|name| - 1] != 0))
  }

  lemma NarrowWide(name: Name)
    ensures Narrow(Wide(name), false) == name
  {
    var b := Wide(name);
    forall i | 0 <= i < |name| ensures UnitAt(b, i, false) == name[i] {
      assert (2 * i) % 2 == 0 && (2 * i) / 2 == i && (2 * i + 1) % 2 == 1 && (2 * i + 1) / 2 == i;
    }
  }

  lemma WideSplit(a: Name, b: Name)
    ensures Wide(a + b) == Wide(a) + Wide(b)
  {
    var (x, y) := (Wide(a + b), Wide(a) + Wide(b));
    forall i | 0 <= i < |x| ensures x[i] == y[i] {
      if i >= 2 * |a| {
        assert i / 2 - |a| == (i - 2 * |a|) / 2 && i % 2 == (i - 2 * |a|) % 2;
      }
    }
  }

  lemma {:induction false} SomeZeroFirst(b: seq<byte>, n: nat) returns (i: nat)
    requires 2 * n <= |b| && ZeroFirst(b, n) > 0
    ensures i < n && b[2 * i] == 0 && b[2 * i + 1] != 0
  {
    if b[2 * n - 2] == 0 && b[2 * n - 1] != 0 { i := n - 1; } else { i := SomeZeroFirst(b, n - 1); }
  }

  /** A name is read back exactly when the zero bytes tell the order, it is valid text and nothing is trimmed. */
  lemma NameRoundTripIff(name: Name)
    ensures Reread(name) == name <==> Survives(name)
  {
    hide Wide, Narrow, UnitAt, Repaired, WellFormed;
    var b := Wide(name);
    NarrowWide(name);
    RepairedIff(name);
    if LooksBig(b) {
      SwapDiffers(name);
    } else {
      TrimmedLength(Repaired(name));
    }
  }

  lemma TrimmedLength(name: Name)
    ensures |Trim(name)| == |name| <==> name == [] || (name[|name| - 1] != BLANK && name[|name| - 1] != 0)
  {
  }

  lemma SwapDiffers(name: Name)
    requires LooksBig(Wide(name))
    ensures Trim(Repaired(Narrow(Wide(name), true))) != name
  {
    hide Repaired;
    var b := Wide(name);
    var i := SomeZeroFirst(b, |b| / 2);
    NarrowWide(name);
    var swapped := Narrow(b, true);
    assert UnitAt(b, i, false) == Narrow(b, false)[i] == name[i];
    assert swapped[i] == UnitAt(b, i, true) != name[i];
    assert swapped[i] < 256;
    RepairedKeeps(swapped, i);
  }

  /** A client may send U+0100 as a name; the server takes it for U+0001. */
  lemma NameMisread()
    ensures Reread([0x0100]) == [0x0001]
  {
    var b := Wide([0x0100]);
    assert b == [0, 1];
    assert ZeroFirst(b, 1) == 1 && ZeroSecond(b, 1) == 0 by { assert ZeroFirst(b, 0) == 0 && ZeroSecond(b, 0) == 0; }
    assert Narrow(b, true) == [0x0001];
    assert Repaired([0x0001]) == [0x0001] by { assert Repaired([]) == []; }
  }

  predicate Printable(name: Name) { forall i :: 0 <= i < |name| ==> 0x20 <= name[i] <= 0x7e }

  lemma {:induction false} PrintableNeverLooksBig(name: Name, n: nat)
    requires Printable(name) && n <= |name|
    ensures ZeroFirst(Wide(name), n) == 0
  {
    if n > 0 {
      PrintableNeverLooksBig(name, n - 1);
      assert (2 * n - 2) % 2 == 0 && (2 * n - 2) / 2 == n - 1;
    }
  }

  /** Printable ASCII without trailing blanks always survives. */
  lemma PrintableSurvives(name: Name)
    requires Printable(name) && (name == [] || name[|name| - 1] != BLANK)
    ensures Survives(name)
  {
    hide WellFormed, Repaired, Wide, ZeroSecond;
    PrintableNeverLooksBig(name, |name|);
    BasicIsWellFormed(name);
  }
}
