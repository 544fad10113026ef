/** The byte-level layout of a store file: the byte type, the fixed-width
    string fields of Python's `struct` packing, and the 100-byte header
    written once when a store is created. */
module Format {

  newtype byte = x: int | 0 <= x < 256

  /** Size of the header that precedes the first record. */
  const HeaderSize: nat := 100
  /** Width of the version field (`10s`). */
  const VersionWidth: nat := 10
  /** Width of the reserved field (`90s`). */
  const ReservedWidth: nat := 90
  /** The filler packed into the reserved field: five `|` characters. */
  const Filler: seq<byte> := [124, 124, 124, 124, 124]

  /** The bytes that `struct.pack` stores for a value packed as `<n>s`:
      the value cut to n bytes, or padded with NUL bytes up to n. */
  function Fit(s: seq<byte>, n: nat): (r: seq<byte>)
    ensures |r| == n
    ensures forall i :: 0 <= i < n ==> r[i] == if i < |s| then s[i] else 0
  {
    if |s| >= n then s[..n] else s + seq(n - |s|, _ => 0)
  }

  /** The header `struct.pack("10s90s", version, b"|||||")`. */
  function Header(version: seq<byte>): (h: seq<byte>)
    ensures |h| == HeaderSize
    ensures h[..VersionWidth] == Fit(version, VersionWidth)
    ensures h[VersionWidth..VersionWidth + |Filler|] == Filler
    ensures forall i :: VersionWidth + |Filler| <= i < HeaderSize ==> h[i] == 0
  {
    Fit(version, VersionWidth) + Fit(Filler, ReservedWidth)
  }

  /** The inverse of the NUL padding that `Fit` adds: the bytes without their
      trailing NULs. The store itself never reads its header back; this
      function exists to state what the version field determines. */
  function TrimNul(s: seq<byte>): (r: seq<byte>)
    ensures |r| <= |s| && r == s[..|r|]
    ensures r == [] || r[|r| - 1] != 0
    ensures forall i :: |r| <= i < |s| ==> s[i] == 0
  {
    if s == [] || s[|s| - 1] != 0 then s else TrimNul(s[..|s| - 1])
  }

  /** Padding with NUL bytes is undone by TrimNul when the value does not
      itself end in NUL. */
  lemma {:induction false} TrimNulPadding(v: seq<byte>, k: nat)
    requires v == [] || v[|v| - 1] != 0
    ensures TrimNul(v + seq(k, _ => 0)) == v
  {
    if k > 0 {
      var padded := v + seq(k, _ => 0);
      assert padded[..|padded| - 1] == v + seq(k - 1, _ => 0);
      TrimNulPadding(v, k - 1);
    } else {
      assert v + seq(k, _ => 0) == v;
    }
  }

  /** The version tag in the header: a version of at most ten bytes that
      does not end in NUL is recovered exactly; a longer one is cut to ten
      bytes. */
  lemma VersionTagRecoverable(version: seq<byte>)
    requires version == [] || version[|version| - 1] != 0
    ensures |version| <= VersionWidth ==> TrimNul(Header(version)[..VersionWidth]) == version
    ensures |version| > VersionWidth ==> Header(version)[..VersionWidth] == version[..VersionWidth]
  {
  }
}
