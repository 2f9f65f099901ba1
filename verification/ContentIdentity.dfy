/** The bytes a postcard's content hash is computed from. */
module ContentIdentity {
  import opened Canvas
  import opened Palettes
  import opened Decimal

  /** The hash function itself is a parameter: a value of this type stands for SHA-256 in hexadecimal. */
  type Hasher = seq<int> -> string

  /** A character in UTF-8. */
  function Utf8(c: char): (b: seq<int>)
    ensures 1 <= |b| <= 4
  {
    var n := c as int;
    if n < 0x80 then [n]
    else if n < 0x800 then [0xC0 + n / 64, 0x80 + n % 64]
    else if n < 0x10000 then [0xE0 + n / 4096, 0x80 + n / 64 % 64, 0x80 + n % 64]
    else [0xF0 + n / 262144, 0x80 + n / 4096 % 64, 0x80 + n / 64 % 64, 0x80 + n % 64]
  }

  function Bytes(s: string): seq<int> {
    if s == "" then [] else Utf8(s[0]) + Bytes(s[1..])
  }

  /** The first byte tells a character's length, and its bytes tell the character. */
  lemma Utf8IsPrefixFree(c: char, d: char, x: seq<int>, y: seq<int>)
    requires Utf8(c) + x == Utf8(d) + y
    ensures c == d && x == y
  {
    var s := Utf8(c) + x;
    assert s[0] == Utf8(c)[0] == Utf8(d)[0];
    assert |Utf8(c)| == |Utf8(d)|;
    assert s[..|Utf8(c)|] == Utf8(c) == Utf8(d) && s[|Utf8(c)|..] == x == y;
    Utf8IsInjective(c, d);
  }

  lemma Utf8IsInjective(c: char, d: char)
    requires Utf8(c) == Utf8(d)
    ensures c == d
  {
    var m, n := c as int, d as int;
    assert forall i :: 0 <= i < |Utf8(c)| ==> Utf8(c)[i] == Utf8(d)[i];
    assert |Utf8(c)| == |Utf8(d)|;
    assert m % 64 == n % 64 && m / 64 == n / 64 ==> m == n;
    assert m / 64 / 64 == m / 4096 && n / 64 / 64 == n / 4096;
    assert m / 4096 / 64 == m / 262144 && n / 4096 / 64 == n / 262144;
  }

  lemma {:induction false} BytesAreInjective(s: string, t: string)
    requires Bytes(s) == Bytes(t)
    ensures s == t
    decreases |s|
  {
    if s != "" && t != "" {
      Utf8IsPrefixFree(s[0], t[0], Bytes(s[1..]), Bytes(t[1..]));
      BytesAreInjective(s[1..], t[1..]);
      assert s == [s[0]] + s[1..] && t == [t[0]] + t[1..];
    }
  }

  /** The versioned suffix that names a palette in every domain but the legacy one. */
  function Suffix(version: int): string {
    ":v" + Signed(version) + ":"
  }

  /** Domain prefix: the original VGA palette keeps the prefix it had before palettes were versioned. */
  function Domain(id: string, version: int): string {
    if id == DEFAULT_PALETTE_ID && version == DEFAULT_PALETTE_VERSION then "pixelgrama:postcard:v1:vga16:"
    else "pixelgrama:postcard:v1:" + (id + Suffix(version))
  }

  function Preimage(pixels: Pixels, id: string, version: int): seq<int> {
    Bytes(Domain(id, version)) + pixels
  }

  function ContentHashForPalette(h: Hasher, pixels: Pixels, id: string, version: int): string {
    h(Preimage(pixels, id, version))
  }

  predicate NumberChar(c: char) {
    IsDigit(c) || c == '-'
  }

  lemma SignedChars(n: int)
    ensures forall c :: c in Signed(n) ==> NumberChar(c)
  {
  }

  /** Read from the right, the printed version ends at the last 'v', so the suffix and the id are determined. */
  lemma SuffixIsInjective(id1: string, v1: int, id2: string, v2: int)
    requires id1 + Suffix(v1) == id2 + Suffix(v2)
    ensures id1 == id2 && v1 == v2
  {
    if |Signed(v1)| < |Signed(v2)| {
      LongerVersionClashes(id1, v1, id2, v2);
    } else if |Signed(v2)| < |Signed(v1)| {
      LongerVersionClashes(id2, v2, id1, v1);
    } else {
      SplitSuffix(id1, v1, id2);
      SplitSuffix(id2, v2, id1);
      SignedIsInjective(v1, v2);
    }
  }

  /** With the length of the id known, id and version can be cut out. */
  lemma SplitSuffix(id: string, version: int, other: string)
    ensures var s := id + Suffix(version);
            |other| == |id| ==> s[..|other|] == id && s[|other| + 2..|s| - 1] == Signed(version)
  {
    var s := id + Suffix(version);
    assert s[|id|..] == Suffix(version);
    assert Suffix(version)[2..|Suffix(version)| - 1] == Signed(version);
    assert s[|id| + 2..|s| - 1] == s[|id|..][2..|Suffix(version)| - 1];
  }

  lemma LongerVersionClashes(id1: string, v1: int, id2: string, v2: int)
    requires |Signed(v1)| < |Signed(v2)|
    ensures id1 + Suffix(v1) != id2 + Suffix(v2)
  {
    var s, t, p := id1 + Suffix(v1), id2 + Suffix(v2), |id1| + 1;
    if |s| == |t| {
      SignedChars(v2);
      assert s[p] == 'v';
      assert t[p] == Signed(v2)[p - |id2| - 2];
      assert Signed(v2)[p - |id2| - 2] in Signed(v2);
    }
  }

  /** The legacy prefix names no version, so it differs from every versioned prefix. */
  lemma LegacyDomainIsApart(id: string, version: int)
    ensures id + Suffix(version) != "vga16:"
  {
    var s, legacy := id + Suffix(version), "vga16:";
    assert s[|id|] == ':' && |s| == |id| + 3 + |Signed(version)|;
    assert forall i :: 0 <= i < 5 ==> legacy[i] != ':';
  }

  lemma DomainIsInjective(id1: string, v1: int, id2: string, v2: int)
    requires Domain(id1, v1) == Domain(id2, v2)
    ensures id1 == id2 && v1 == v2
  {
    var common, d1, d2 := "pixelgrama:postcard:v1:", Domain(id1, v1), Domain(id2, v2);
    assert "pixelgrama:postcard:v1:vga16:" == common + "vga16:";
    LegacyDomainIsApart(id1, v1);
    LegacyDomainIsApart(id2, v2);
    assert d1[|common|..] == d2[|common|..];
    if d1 == common + (id1 + Suffix(v1)) && d2 == common + (id2 + Suffix(v2)) {
      assert d1[|common|..] == id1 + Suffix(v1) && d2[|common|..] == id2 + Suffix(v2);
      SuffixIsInjective(id1, v1, id2, v2);
    }
  }

  /** Two contents with the same hash input are the same content: pixels, palette and palette version. */
  lemma PreimageIsInjective(p1: Pixels, id1: string, v1: int, p2: Pixels, id2: string, v2: int)
    requires Preimage(p1, id1, v1) == Preimage(p2, id2, v2)
    ensures p1 == p2 && id1 == id2 && v1 == v2
  {
    var s, d1, d2 := Preimage(p1, id1, v1), Bytes(Domain(id1, v1)), Bytes(Domain(id2, v2));
    assert |d1| == |d2|;
    assert s[|d1|..] == p1 && s[|d1|..] == p2;
    assert s[..|d1|] == d1 && s[..|d1|] == d2;
    BytesAreInjective(Domain(id1, v1), Domain(id2, v2));
    DomainIsInjective(id1, v1, id2, v2);
  }

  // ----- the prefixes themselves -----

  /** The default palette keeps the prefix that every stored drawing was hashed under before palettes had versions. */
  lemma DefaultPreimage(p: Pixels)
    ensures Preimage(p, "vga16", 1) == Bytes("pixelgrama:postcard:v1:vga16:") + p
  {
  }

  /** Every other identity is named with its version. */
  lemma VersionedPreimage(p: Pixels, id: string, version: int)
    requires !(id == "vga16" && version == 1)
    ensures Preimage(p, id, version) == Bytes("pixelgrama:postcard:v1:" + (id + (":v" + Signed(version) + ":"))) + p
  {
  }
}
