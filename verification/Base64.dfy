/** Base64 as in section 4 of RFC 4648. Bytes are numbers, so a shift is a division or a product
    by a power of two and a mask of low bits a remainder. */
module Base64 {
  import opened Bytes

  datatype Status = OK | BUFFER_OVERFLOW | INVALID_PACKET

  // ----- The two tables

  /** `codes`: the character of a 6-bit value. */
  function Code(v: nat): (c: byte)
    requires v < 64
  {
    if v < 26 then 65 + v else          // A-Z
    if v < 52 then 97 + (v - 26) else   // a-z
    if v < 62 then 48 + (v - 52) else   // 0-9
    if v == 62 then 43 else 47          // + /
  }

  const PAD_CHARACTER: byte := 61 // =
  const PAD: nat := 254
  const IGNORED: nat := 255

  /** `mymap`: the value of a character. */
  function Map(c: byte): (v: nat)
    ensures v < 64 || v == PAD || v == IGNORED
  {
    if 65 <= c <= 90 then c - 65 else
    if 97 <= c <= 122 then c - 97 + 26 else
    if 48 <= c <= 57 then c - 48 + 52 else
    if c == 43 then 62 else
    if c == 47 then 63 else
    if c == PAD_CHARACTER then PAD else IGNORED
  }

  const UPPER := "ABCDEFGHIJKLMNOPQRSTUVWXYZ"
  const LOWER := "abcdefghijklmnopqrstuvwxyz"
  const DECIMAL := "0123456789"
  const ALPHABET := UPPER + LOWER + DECIMAL + "+/"

  /** The codes are the characters of the alphabet in table 1 of RFC 4648, in its order. */
  lemma CodesAreAlphabet(v: nat)
    requires v < 64
    ensures |ALPHABET| == 64 && Code(v) == ALPHABET[v] as int
  {
    if v < 26 {
      assert UPPER[v] as int == 65 + v;
    } else if v < 52 {
      assert LOWER[v - 26] as int == 97 + (v - 26);
    } else if v < 62 {
      assert DECIMAL[v - 52] as int == 48 + (v - 52);
    }
  }

  /** A character has a value exactly when it is that value's code. */
  lemma TablesAreInverse(v: nat, c: byte)
    requires v < 64
    ensures Map(c) == v <==> Code(v) == c
  {
  }

  /** The pad is `=`, and every character that is neither that nor a code is ignored. */
  lemma OtherCharacters(c: byte)
    ensures Map(c) == PAD <==> c == '=' as int
    ensures Map(c) == IGNORED <==> c != '=' as int && forall v: nat :: v < 64 ==> Code(v) != c
  {
    if Map(c) < 64 {
      TablesAreInverse(Map(c), c);
    }
  }

  // ----- Groups of 24 bits

  function Bits24(a: byte, b: byte, c: byte): nat {
    a * 65536 + b * 256 + c
  }

  /** The `k`-th 6-bit digit of 24 bits, most significant first. */
  function Digit(g: nat, k: nat): (d: nat)
    requires k < 4
    ensures d < 64
  {
    (if k == 0 then g / 262144 else if k == 1 then g / 4096 else if k == 2 then g / 64 else g) % 64
  }

  function Digits(g: nat): (ds: seq<nat>)
    ensures |ds| == 4 && ds[0] < 64 && ds[1] < 64 && ds[2] < 64 && ds[3] < 64
  {
    [Digit(g, 0), Digit(g, 1), Digit(g, 2), Digit(g, 3)]
  }

  /** Symbols are 6-bit values and pads. */
  predicate IsSymbol(v: nat) {
    v < 64 || v == PAD
  }

  predicate AreSymbols(sig: seq<nat>) {
    forall i :: 0 <= i < |sig| ==> IsSymbol(sig[i])
  }

  /** How many groups of three some bytes fill, the last one perhaps in part. */
  function GroupCount(n: nat): nat {
    (n + 2) / 3
  }

  /** The four symbols of up to three bytes: the bits left over are zero, and the digits that hold
      none of the bytes are pads. */
  function GroupSymbols(bs: seq<byte>): (sig: seq<nat>)
    requires 1 <= |bs| <= 3
    ensures |sig| == 4 && AreSymbols(sig)
  {
    if |bs| == 1 then Digits(Bits24(bs[0], 0, 0))[..2] + [PAD, PAD] else
    if |bs| == 2 then Digits(Bits24(bs[0], bs[1], 0))[..3] + [PAD] else
    Digits(Bits24(bs[0], bs[1], bs[2]))
  }

  /** The symbols that encode some bytes, group by group. */
  function Symbols(bs: seq<byte>): (sig: seq<nat>)
    ensures AreSymbols(sig)
  {
    if |bs| == 0 then [] else
    if |bs| <= 3 then GroupSymbols(bs) else
    GroupSymbols(bs[..3]) + Symbols(bs[3..])
  }

  lemma {:induction false} SymbolsLength(bs: seq<byte>)
    ensures |Symbols(bs)| == 4 * GroupCount(|bs|)
    decreases |bs|
  {
    hide GroupSymbols;
    if |bs| > 3 {
      SymbolsLength(bs[3..]);
      assert GroupCount(|bs|) == 1 + GroupCount(|bs| - 3);
    }
  }

  function CharacterOf(v: nat): byte
    requires IsSymbol(v)
  {
    if v == PAD then PAD_CHARACTER else Code(v)
  }

  function Characters(sig: seq<nat>): (cs: seq<byte>)
    requires AreSymbols(sig)
    ensures |cs| == |sig|
  {
    seq(|sig|, i requires 0 <= i < |sig| => CharacterOf(sig[i]))
  }

  // ----- Encoding

  /** The encoder's shifts and masks of bytes are quotients and remainders by powers of two. */
  lemma ShiftsAndMasks(a: bv8, b: bv8, c: bv8)
    ensures (a >> 2) & 0x3F == (a / 4) % 64
    ensures (((a & 3) << 4) + (b >> 4)) & 0x3F == ((a % 4) * 16 + b / 16) % 64
    ensures (((b & 0xF) << 2) + (c >> 6)) & 0x3F == ((b % 16) * 4 + c / 64) % 64
    ensures c & 0x3F == c % 64
  {
  }

  /** So are the decoder's, of the at most 24 bits of a group. */
  lemma GroupShiftsAndMasks(t: bv24, c: bv24)
    requires t < 0x4_0000 && c < 64
    ensures (t << 6) | c == t * 64 + c
    ensures (t >> 16) & 255 == (t / 65536) % 256
    ensures (t >> 8) & 255 == (t / 256) % 256
    ensures t & 255 == t % 256
  {
  }

  lemma Quotients(a: byte, b: byte, c: byte)
    ensures Bits24(a, b, c) / 64 == a * 1024 + b * 4 + c / 64
    ensures Bits24(a, b, c) / 4096 == a * 16 + b / 16
    ensures Bits24(a, b, c) / 262144 == a / 4
  {
  }

  lemma MultipleLeavesRemainder(q: nat, r: nat)
    ensures (q * 64 + r) % 64 == r % 64
  {
  }

  lemma FirstDigits(a: byte, b: byte)
    ensures (a / 4) % 64 == a / 4
    ensures (a * 16 + b / 16) % 64 == ((a % 4) * 16 + b / 16) % 64
  {
    MultipleLeavesRemainder(a / 4, (a % 4) * 16 + b / 16);
  }

  lemma ThirdDigit(a: byte, b: byte, c: byte)
    ensures (a * 1024 + b * 4 + c / 64) % 64 == ((b % 16) * 4 + c / 64) % 64
  {
    MultipleLeavesRemainder(a * 16 + b / 16, (b % 16) * 4 + c / 64);
  }

  lemma FourthDigit(a: byte, b: byte, c: byte)
    ensures Bits24(a, b, c) % 64 == c % 64
  {
    MultipleLeavesRemainder(a * 1024 + b * 4, c);
  }

  /** The quotients and remainders the encoder takes for its shifts and masks are the digits of the
      group. */
  lemma ShiftsPickDigits(a: byte, b: byte, c: byte)
    ensures (a / 4) % 64 == Digit(Bits24(a, b, c), 0)
    ensures ((a % 4) * 16 + b / 16) % 64 == Digit(Bits24(a, b, c), 1)
    ensures ((b % 16) * 4 + c / 64) % 64 == Digit(Bits24(a, b, c), 2)
    ensures c % 64 == Digit(Bits24(a, b, c), 3)
  {
    hide Bits24;
    Quotients(a, b, c);
    FirstDigits(a, b);
    ThirdDigit(a, b, c);
    FourthDigit(a, b, c);
  }

  lemma {:induction false} SymbolsOfConcat(bs: seq<byte>, cs: seq<byte>)
    requires |bs| % 3 == 0
    ensures Symbols(bs + cs) == Symbols(bs) + Symbols(cs)
    decreases |bs|
  {
    hide GroupSymbols;
    if bs == [] {
      assert bs + cs == cs;
    } else if |bs| == 3 {
      assert (bs + cs)[..3] == bs && (bs + cs)[3..] == cs;
      if cs == [] {
        assert bs + cs == bs;
      }
    } else {
      assert (bs + cs)[..3] == bs[..3] && (bs + cs)[3..] == bs[3..] + cs;
      SymbolsOfConcat(bs[3..], cs);
    }
  }

  lemma GroupAppended(input: seq<byte>, i: nat, j: nat)
    requires i % 3 == 0 && i < j <= |input| && j <= i + 3
    ensures Characters(Symbols(input[..j])) == Characters(Symbols(input[..i])) + Characters(GroupSymbols(input[i..j]))
  {
    hide GroupSymbols;
    SymbolsOfConcat(input[..i], input[i..j]);
    assert input[..i] + input[i..j] == input[..j];
  }

  /** The encoder's four characters for one group, from its shifts and masks. */
  method EncodeGroup(out: array<byte>, p: nat, a: byte, b: byte, c: byte, n: nat, ghost group: seq<byte>)
    requires p + 4 <= out.Length && 1 <= n <= 3
    requires group == [a, b, c][..n] && (n < 3 ==> c == 0) && (n < 2 ==> b == 0)
    modifies out
    ensures out[..p + 4] == old(out[..p]) + Characters(GroupSymbols(group))
    ensures forall k :: p + 4 <= k < out.Length ==> out[k] == old(out[k])
  {
    ShiftsPickDigits(a, b, c);
    out[p] := Code((a / 4) % 64);
    out[p + 1] := Code(((a % 4) * 16 + b / 16) % 64);
    out[p + 2] := if n > 1 then Code(((b % 16) * 4 + c / 64) % 64) else PAD_CHARACTER;
    out[p + 3] := if n > 2 then Code(c % 64) else PAD_CHARACTER;
  }

  /** `base64_encode`. */
  method Encode(input: seq<byte>, out: array<byte>, outlen: nat) returns (status: Status, newlen: nat)
    requires outlen <= out.Length
    modifies out
    ensures var n := 4 * GroupCount(|input|);
            if outlen < n + 1 then status == BUFFER_OVERFLOW && newlen == outlen && out[..] == old(out[..]) else
            && status == OK && newlen == n
            && out[..n] == Characters(Symbols(input)) && out[n] == 0
            && out[n + 1..] == old(out[n + 1..])
  {
    hide Symbols, GroupSymbols, Characters, Code;
    var len2 := 4 * ((|input| + 2) / 3);
    if outlen < len2 + 1 {
      return BUFFER_OVERFLOW, outlen;
    }
    var p := 0;
    var leven := 3 * (|input| / 3);
    var i := 0;
    ghost var groups := 0;
    SymbolsLength([]);
    while i < leven
      invariant i == 3 * groups <= leven && p == 4 * groups
      invariant out[..p] == Characters(Symbols(input[..i]))
      invariant forall k :: len2 < k < out.Length ==> out[k] == old(out[k])
    {
      GroupAppended(input, i, i + 3);
      EncodeGroup(out, p, input[i], input[i + 1], input[i + 2], 3, input[i..i + 3]);
      p := p + 4;
      i := i + 3;
      groups := groups + 1;
    }
    if i < |input| {
      var a := input[i];
      var b: byte := if i + 1 < |input| then input[i + 1] else 0;
      GroupAppended(input, i, |input|);
      EncodeGroup(out, p, a, b, 0, if i + 1 < |input| then 2 else 1, input[i..]);
      p := p + 4;
    }
    assert input[..|input|] == input;
    out[p] := 0;
    return OK, p;
  }

  // ----- What the decoder accepts

  /** The values of the characters that are not ignored. */
  function Significant(input: seq<byte>): (sig: seq<nat>)
    ensures AreSymbols(sig)
    decreases |input|
  {
    if input == [] then [] else
    var n := |input| - 1;
    if Map(input[n]) == IGNORED then Significant(input[..n]) else Significant(input[..n]) + [Map(input[n])]
  }

  function Pads(sig: seq<nat>): nat {
    if sig == [] then 0 else Pads(sig[..|sig| - 1]) + if sig[|sig| - 1] == PAD then 1 else 0
  }

  /** Data symbols followed by at most three pads. */
  predicate IsShaped(sig: seq<nat>) {
    && (forall i, j :: 0 <= i < j < |sig| && sig[i] == PAD ==> sig[j] == PAD)
    && Pads(sig) <= 3
  }

  predicate IsAccepted(sig: seq<nat>) {
    IsShaped(sig) && |sig| % 4 == 0
  }

  /** The room the decoder asks for: three bytes a group, less one for each pad. */
  function RoomFor(sig: seq<nat>): int {
    3 * (|sig| / 4) - Pads(sig)
  }

  /** At the end of a group, after `k` symbols, the decoder finds too little room. */
  predicate OverflowsAt(sig: seq<nat>, k: nat, outlen: nat) {
    0 < k <= |sig| && k % 4 == 0 && IsShaped(sig[..k]) && RoomFor(sig[..k]) > outlen
  }

  function ValueOf(v: nat): nat {
    if v == PAD then 0 else v
  }

  /** The number whose digits are the symbols, pads counting as zero. */
  function Number(sig: seq<nat>): nat {
    if sig == [] then 0 else Number(sig[..|sig| - 1]) * 64 + ValueOf(sig[|sig| - 1])
  }

  function BytesOf(g: nat): (bs: seq<byte>)
    ensures |bs| == 3
  {
    [(g / 65536) % 256, (g / 256) % 256, g % 256]
  }

  /** The bytes of one group: three less one for each pad, but always the first. */
  function GroupBytes(q: seq<nat>): (bs: seq<byte>) {
    BytesOf(Number(q))[..if Pads(q) >= 2 then 1 else 3 - Pads(q)]
  }

  function Decoded(sig: seq<nat>): seq<byte> {
    if |sig| < 4 then [] else
    if |sig| == 4 then GroupBytes(sig) else
    GroupBytes(sig[..4]) + Decoded(sig[4..])
  }

  // ----- Facts about symbol sequences

  lemma {:induction false} PadsOfConcat(s: seq<nat>, t: seq<nat>)
    ensures Pads(s + t) == Pads(s) + Pads(t)
    decreases |t|
  {
    if t == [] {
      assert s + t == s;
    } else {
      assert (s + t)[..|s + t| - 1] == s + t[..|t| - 1];
      PadsOfConcat(s, t[..|t| - 1]);
    }
  }

  lemma {:induction false} NoPads(s: seq<nat>)
    ensures Pads(s) == 0 <==> PAD !in s
    ensures Pads(s) <= |s|
  {
    if s != [] {
      var n := |s| - 1;
      NoPads(s[..n]);
      assert s == s[..n] + [s[n]];
    }
  }

  lemma ShapeOfPrefix(sig: seq<nat>, k: nat)
    requires k <= |sig| && IsShaped(sig)
    ensures IsShaped(sig[..k]) && Pads(sig[..k]) <= Pads(sig)
  {
    PadsOfConcat(sig[..k], sig[k..]);
    assert sig == sig[..k] + sig[k..];
  }

  /** When a shaped sequence fills its groups, only the last group has pads. */
  lemma PadsInLastGroup(sig: seq<nat>)
    requires IsAccepted(sig) && sig != []
    ensures Pads(sig[..|sig| - 4]) == 0 && Pads(sig[|sig| - 4..]) == Pads(sig)
  {
    var n := |sig| - 4;
    var front, group := sig[..n], sig[n..];
    assert sig == front + group;
    PadsOfConcat(front, group);
    NoPads(front);
    if PAD in front {
      var i :| 0 <= i < n && sig[i] == PAD;
      assert group[0] == PAD && group[1] == PAD && group[2] == PAD && group[3] == PAD;
      AllPads(group);
    }
  }

  lemma AllPads(q: seq<nat>)
    requires |q| == 4 && q[0] == PAD && q[1] == PAD && q[2] == PAD && q[3] == PAD
    ensures Pads(q) == 4
  {
    PadsOfFour(q);
  }

  lemma PadsOfFour(q: seq<nat>)
    requires |q| == 4
    ensures Pads(q) == (if q[0] == PAD then 1 else 0) + (if q[1] == PAD then 1 else 0) +
                       (if q[2] == PAD then 1 else 0) + (if q[3] == PAD then 1 else 0)
  {
    assert q[..3][..2] == q[..2] && q[..2][..1] == q[..1] && q[..1][..0] == [];
    assert Pads(q[..1]) == if q[0] == PAD then 1 else 0;
    assert Pads(q[..2]) == Pads(q[..1]) + if q[1] == PAD then 1 else 0;
    assert Pads(q[..3]) == Pads(q[..2]) + if q[2] == PAD then 1 else 0;
  }

  lemma {:induction false} DecodedOfConcat(sig: seq<nat>, q: seq<nat>)
    requires |sig| % 4 == 0 && |q| == 4
    ensures Decoded(sig + q) == Decoded(sig) + GroupBytes(q)
    decreases |sig|
  {
    hide GroupBytes, Number, Pads, BytesOf;
    if sig == [] {
      assert sig + q == q;
      assert [] + GroupBytes(q) == GroupBytes(q);
    } else {
      assert Decoded(sig + q) == GroupBytes((sig + q)[..4]) + Decoded((sig + q)[4..]);
      assert (sig + q)[..4] == sig[..4] && (sig + q)[4..] == sig[4..] + q;
      DecodedOfConcat(sig[4..], q);
      if |sig| == 4 {
        assert sig[4..] == [] && sig[..4] == sig;
      }
    }
  }

  lemma ShapedHasFewPads(sig: seq<nat>)
    requires IsShaped(sig)
    ensures Pads(sig) <= 3
  {
  }

  lemma NothingDecoded()
    ensures Decoded([]) == [] && Pads([]) == 0
  {
  }

  /** A decoded sequence has as many bytes as the decoder asked room for, and one more after three pads. */
  lemma {:induction false} DecodedLength(sig: seq<nat>)
    requires IsAccepted(sig)
    ensures |Decoded(sig)| == RoomFor(sig) + if Pads(sig) == 3 then 1 else 0
    decreases |sig|
  {
    hide Decoded, Number, BytesOf, Pads, IsShaped;
    if sig == [] {
      NothingDecoded();
    } else {
      var n := |sig| - 4;
      PadsInLastGroup(sig);
      ShapeOfPrefix(sig, n);
      DecodedLength(sig[..n]);
      DecodedOfConcat(sig[..n], sig[n..]);
      assert sig == sig[..n] + sig[n..];
      ShapedHasFewPads(sig);
      assert |sig| / 4 == 1 + n / 4;
    }
  }

  lemma SnocIsShaped(sig: seq<nat>, v: nat)
    requires IsShaped(sig)
    ensures IsShaped(sig + [v]) <==> if v == PAD then Pads(sig) < 3 else Pads(sig) == 0
    ensures Pads(sig + [v]) == Pads(sig) + if v == PAD then 1 else 0
  {
    var more := sig + [v];
    assert more[..|sig|] == sig;
    NoPads(sig);
    if v != PAD && Pads(sig) > 0 {
      var i :| 0 <= i < |sig| && sig[i] == PAD;
      assert more[i] == PAD && more[|sig|] != PAD;
    }
    if v == PAD && Pads(sig) < 3 {
      assert forall i, j :: 0 <= i < j < |more| && more[i] == PAD ==> more[j] == PAD;
    }
    if v != PAD && Pads(sig) == 0 {
      assert forall i :: 0 <= i < |sig| ==> more[i] == sig[i] && sig[i] in sig;
    }
  }

  lemma {:induction false} SignificantPrefix(input: seq<byte>, x: nat)
    requires x <= |input|
    ensures Significant(input[..x]) <= Significant(input)
    decreases |input|
  {
    if x < |input| {
      var n := |input| - 1;
      SignificantPrefix(input[..n], x);
      assert input[..n][..x] == input[..x];
    } else {
      assert input[..x] == input;
    }
  }

  // ----- Decoding

  lemma StopsInvalid(sig: seq<nat>, n: nat, outlen: nat)
    requires n < |sig| && !IsShaped(sig[..n + 1])
    requires FitsSoFar(sig[..n], outlen)
    ensures !IsShaped(sig) && FitsSoFar(sig, outlen)
  {
    if IsShaped(sig) {
      ShapeOfPrefix(sig, n + 1);
    }
    forall k: nat ensures !OverflowsAt(sig, k, outlen) {
      if OverflowsAt(sig, k, outlen) {
        if k <= n {
          assert sig[..n][..k] == sig[..k];
          assert OverflowsAt(sig[..n], k, outlen);
        } else {
          assert sig[..k][..n + 1] == sig[..n + 1];
          ShapeOfPrefix(sig[..k], n + 1);
        }
      }
    }
  }

  lemma OverflowIsNoSuccess(sig: seq<nat>, k: nat, outlen: nat)
    requires OverflowsAt(sig, k, outlen)
    ensures !(IsAccepted(sig) && RoomFor(sig) <= outlen)
  {
    if IsAccepted(sig) && k < |sig| {
      PadsInLastGroup(sig);
      PadsOfConcat(sig[..k], sig[k..|sig| - 4]);
      assert sig[..|sig| - 4] == sig[..k] + sig[k..|sig| - 4];
    } else if k == |sig| {
      assert sig[..k] == sig;
    }
  }

  ghost predicate FitsSoFar(sig: seq<nat>, outlen: nat) {
    forall k: nat :: !OverflowsAt(sig, k, outlen)
  }

  /** What the loop knows after the symbols `sig`, `y` of them in an unfinished group. */
  ghost predicate Progress(sig: seq<nat>, outlen: nat, t: nat, y: nat, z: nat, g: int)
  {
    && IsShaped(sig) && y == |sig| % 4
    && g == 3 - Pads(sig)
    && t == Number(sig[|sig| - y..])
    && z == |Decoded(sig[..|sig| - y])|
    && FitsSoFar(sig, outlen)
  }

  lemma NumberSnoc(sig: seq<nat>, v: nat)
    ensures Number(sig + [v]) == Number(sig) * 64 + ValueOf(v)
  {
    assert (sig + [v])[..|sig|] == sig;
  }

  lemma OverflowsAtSnoc(sig: seq<nat>, v: nat, outlen: nat)
    requires FitsSoFar(sig, outlen)
    ensures var more := sig + [v];
            forall k: nat :: OverflowsAt(more, k, outlen) <==>
                        k == |more| && |more| % 4 == 0 && IsShaped(more) && RoomFor(more) > outlen
  {
    var more := sig + [v];
    assert more[..|more|] == more;
    forall k: nat | k <= |sig| ensures !OverflowsAt(more, k, outlen) {
      if 0 < k {
        assert more[..k] == sig[..k];
        assert !OverflowsAt(sig, k, outlen);
      }
    }
  }

  lemma NextInGroup(n: nat)
    ensures (n + 1) % 4 == if n % 4 == 3 then 0 else n % 4 + 1
  {
  }

  lemma SplitOfSnoc(sig: seq<nat>, v: nat, y: nat)
    requires y <= |sig|
    ensures (sig + [v])[|sig| - y..] == sig[|sig| - y..] + [v]
    ensures (sig + [v])[..|sig| - y] == sig[..|sig| - y]
    ensures |sig + [v]| - (y + 1) == |sig| - y
  {
  }

  lemma FitsWithinGroup(sig: seq<nat>, v: nat, outlen: nat)
    requires FitsSoFar(sig, outlen) && |sig| % 4 != 3
    ensures FitsSoFar(sig + [v], outlen)
  {
    hide OverflowsAt, RoomFor, IsShaped;
    NextInGroup(|sig|);
    OverflowsAtSnoc(sig, v, outlen);
  }

  lemma GroupGoesOn(sig: seq<nat>, v: nat, outlen: nat, y: nat)
    requires FitsSoFar(sig, outlen) && y == |sig| % 4 && y < 3
    ensures y + 1 == |sig + [v]| % 4 && FitsSoFar(sig + [v], outlen)
  {
    hide FitsSoFar;
    NextInGroup(|sig|);
    FitsWithinGroup(sig, v, outlen);
  }

  lemma GroupSoFar(sig: seq<nat>, v: nat, y: nat)
    requires y <= |sig|
    ensures Number((sig + [v])[|sig| - y..]) == Number(sig[|sig| - y..]) * 64 + ValueOf(v)
    ensures Decoded((sig + [v])[..|sig| - y]) == Decoded(sig[..|sig| - y])
  {
    hide Number, Decoded, ValueOf;
    SplitOfSnoc(sig, v, y);
    NumberSnoc(sig[|sig| - y..], v);
  }

  lemma IsProgress(sig: seq<nat>, outlen: nat, y: nat, at: nat)
    requires IsShaped(sig) && y == |sig| % 4 && at == |sig| - y && FitsSoFar(sig, outlen)
    ensures Progress(sig, outlen, Number(sig[at..]), y, |Decoded(sig[..at])|, 3 - Pads(sig))
  {
    hide Number, Decoded, FitsSoFar, IsShaped, Pads, ValueOf;
  }

  lemma ProgressMeans(sig: seq<nat>, outlen: nat, t: nat, y: nat, z: nat, g: int)
    requires Progress(sig, outlen, t, y, z, g)
    ensures IsShaped(sig) && y == |sig| % 4 && FitsSoFar(sig, outlen) && y <= |sig|
    ensures t == Number(sig[|sig| - y..]) && z == |Decoded(sig[..|sig| - y])| && g == 3 - Pads(sig)
  {
    hide Number, Decoded, FitsSoFar, IsShaped, Pads;
  }

  lemma SameGroup(sig: seq<nat>, v: nat, outlen: nat, t: nat, y: nat, z: nat, g: int)
    requires Progress(sig, outlen, t, y, z, g) && y < 3 && IsShaped(sig + [v])
    ensures Progress(sig + [v], outlen, t * 64 + ValueOf(v), y + 1, z, 3 - Pads(sig + [v]))
    ensures (sig + [v])[..|sig| - y] == sig[..|sig| - y]
  {
    hide *;
    ProgressMeans(sig, outlen, t, y, z, g);
    GroupGoesOn(sig, v, outlen, y);
    GroupSoFar(sig, v, y);
    SplitOfSnoc(sig, v, y);
    IsProgress(sig + [v], outlen, y + 1, |sig| - y);
  }

  /** At the end of a group the test on the room asks for exactly `RoomFor`, and the group adds
      its bytes. */
  lemma GroupEnds(sig: seq<nat>, v: nat, outlen: nat, t: nat, z: nat, g: int)
    requires Progress(sig, outlen, t, 3, z, g) && IsShaped(sig + [v])
    ensures var more := sig + [v]; var now := 3 - Pads(more);
            && (OverflowsAt(more, |more|, outlen) <==> z + now > outlen)
            && now >= 0
            && Decoded(more) == Decoded(sig[..|sig| - 3]) + BytesOf(t * 64 + ValueOf(v))[..if now <= 1 then 1 else now]
            && (z + now <= outlen ==> Progress(more, outlen, 0, 0, |Decoded(more)|, now))
  {
    hide Number, Decoded, IsShaped, Pads, ValueOf, BytesOf;
    var more := sig + [v];
    var front, group := sig[..|sig| - 3], sig[|sig| - 3..] + [v];
    assert more == front + group && more[..|more| - 4] == front && more[|more| - 4..] == group;
    assert more[..|more|] == more && more[|more|..] == [];
    NumberSnoc(sig[|sig| - 3..], v);
    PadsInLastGroup(more);
    ShapeOfPrefix(more, |more| - 4);
    DecodedLength(front);
    DecodedOfConcat(front, group);
    OverflowsAtSnoc(sig, v, outlen);
    NumberOfNothing();
    ShapedHasFewPads(more);
  }

  lemma NumberOfNothing()
    ensures Number([]) == 0
  {
  }

  lemma SignificantNext(input: seq<byte>, x: nat)
    requires x < |input|
    ensures var sig, c := Significant(input[..x]), Map(input[x]);
            Significant(input[..x + 1]) == if c == IGNORED then sig else sig + [c]
    ensures Significant(input[..x + 1]) <= Significant(input)
  {
    assert input[..x + 1][..x] == input[..x];
    SignificantPrefix(input, x + 1);
  }

  /** The decoder's bytes for one group. */
  method WriteGroup(out: array<byte>, at: nat, t: nat, g: nat) returns (z: nat)
    requires g <= 3 && at + (if g <= 1 then 1 else g) <= out.Length
    modifies out
    ensures z == at + (if g <= 1 then 1 else g)
    ensures out[..z] == old(out[..at]) + BytesOf(t)[..if g <= 1 then 1 else g]
    ensures forall k :: z <= k < out.Length ==> out[k] == old(out[k])
  {
    z := at;
    out[z] := (t / 65536) % 256;
    z := z + 1;
    if g > 1 {
      out[z] := (t / 256) % 256;
      z := z + 1;
    }
    if g > 2 {
      out[z] := t % 256;
      z := z + 1;
    }
  }

  /** At the end of a group with the third pad the decoder writes one byte that its test on the room
      did not count, past the bound. */
  predicate SpillsAt(sig: seq<nat>, k: nat, outlen: nat) {
    && 0 < k <= |sig| && k % 4 == 0
    && IsShaped(sig[..k]) && Pads(sig[..k]) == 3 && RoomFor(sig[..k]) == outlen
  }

  ghost predicate Spills(sig: seq<nat>, outlen: nat) {
    exists k: nat :: SpillsAt(sig, k, outlen)
  }

  lemma SpillsNext(sig: seq<nat>, v: nat, outlen: nat)
    requires IsShaped(sig + [v])
    ensures Spills(sig + [v], outlen) <==> SpillsAt(sig + [v], |sig| + 1, outlen)
    ensures !Spills(sig, outlen)
  {
    hide IsShaped, Pads, RoomFor;
    var more := sig + [v];
    assert more[..|sig|] == sig;
    ShapeOfPrefix(more, |sig|);
    SnocIsShaped(sig, v);
    forall k: nat | k <= |sig| ensures !SpillsAt(more, k, outlen) && !SpillsAt(sig, k, outlen) {
      assert more[..k] == sig[..k];
      ShapeOfPrefix(sig, k);
      if Pads(sig[..k]) == 3 {
        ThreePadsEnd(sig, k);
      }
    }
  }

  /** Nothing but pads follows a pad, so with three in whole groups the group of the third is the
      last. */
  lemma ThreePadsEnd(sig: seq<nat>, k: nat)
    requires k <= |sig| && Pads(sig[..k]) == 3 && IsShaped(sig)
    ensures k == |sig| && Pads(sig) == 3
  {
    assert sig == sig[..k] + sig[k..];
    PadsOfConcat(sig[..k], sig[k..]);
    NoPads(sig[..k]);
    NoPads(sig[k..]);
  }

  /** What follows a symbol that breaks the shape cannot spill. */
  lemma BrokenStopsSpilling(sig: seq<nat>, n: nat, outlen: nat)
    requires n < |sig| && !IsShaped(sig[..n + 1])
    ensures Spills(sig, outlen) <==> Spills(sig[..n], outlen)
  {
    hide Pads, RoomFor, IsShaped;
    forall k: nat | k <= |sig| ensures SpillsAt(sig, k, outlen) <==> k <= n && SpillsAt(sig[..n], k, outlen) {
      if k <= n {
        assert sig[..n][..k] == sig[..k];
      } else if IsShaped(sig[..k]) {
        assert sig[..k][..n + 1] == sig[..n + 1];
        ShapeOfPrefix(sig[..k], n + 1);
      }
    }
  }

  /** What lacks room at the end of a group does not spill, there or later. */
  lemma OverflowStopsSpilling(sig: seq<nat>, n: nat, outlen: nat)
    requires OverflowsAt(sig, n, outlen) && !Spills(sig[..n], outlen)
    ensures !Spills(sig, outlen)
  {
    hide Pads, IsShaped;
    forall k: nat ensures !SpillsAt(sig, k, outlen) {
      if SpillsAt(sig, k, outlen) {
        assert k <= n ==> sig[..n][..k] == sig[..k];
        assert k <= n ==> SpillsAt(sig[..n], k, outlen);
        if k > n {
          RoomOfFullGroups(sig, n, k);
        }
      }
    }
  }

  lemma RoomOfFullGroups(sig: seq<nat>, n: nat, k: nat)
    requires n < k <= |sig| && n % 4 == 0 && k % 4 == 0 && IsShaped(sig[..k])
    ensures RoomFor(sig[..n]) <= RoomFor(sig[..k])
  {
    hide Pads, IsShaped;
    var q := sig[..k];
    PadsInLastGroup(q);
    assert q[..|q| - 4][..n] == sig[..n];
    PadsSoFar(q[..|q| - 4], n);
    ShapedHasFewPads(q);
  }

  /** A finished group leads past the bound exactly when it spills. */
  lemma GroupSpills(sig: seq<nat>, v: nat, outlen: nat, t: nat, z: nat, g: int)
    requires Progress(sig, outlen, t, 3, z, g) && IsShaped(sig + [v]) && z <= outlen
    requires !OverflowsAt(sig + [v], |sig| + 1, outlen)
    ensures var more := sig + [v]; |Decoded(more)| > outlen <==> SpillsAt(more, |more|, outlen)
    ensures |Decoded(sig + [v])| <= outlen + 1
  {
    hide Number, Decoded, Pads, ValueOf, BytesOf, IsShaped, FitsSoFar;
    var more := sig + [v];
    NextInGroup(|sig|);
    ShapedHasFewPads(more);
    assert more[..|more|] == more;
    DecodedLength(more);
  }

  lemma StopsEarly(sig: seq<nat>, n: nat)
    requires n <= |sig|
    ensures n - n % 4 <= |sig| && sig[..n][..n - n % 4] == sig[..n - n % 4]
  {
  }

  /** The end of a group: the test on the room, and the bytes if it is passed. */
  method EndGroup(out: array<byte>, outlen: nat, z: nat, t: nat, g: nat,
                  ghost sig: seq<nat>, ghost c: nat, ghost was: nat)
    returns (fits: bool, next: nat)
    requires Progress(sig, outlen, was, 3, z, 3 - Pads(sig)) && IsShaped(sig + [c])
    requires t == was * 64 + ValueOf(c) && g == 3 - Pads(sig + [c]) && 3 <= |sig|
    requires z <= outlen <= out.Length && out[..z] == Decoded(sig[..|sig| - 3])
    requires SpillsAt(sig + [c], |sig| + 1, outlen) ==> outlen < out.Length
    modifies out
    ensures fits <==> !OverflowsAt(sig + [c], |sig| + 1, outlen)
    ensures !fits ==> next == z && out[..] == old(out[..])
    ensures fits ==>
              && Progress(sig + [c], outlen, 0, 0, next, g)
              && z <= next <= out.Length && out[..next] == Decoded(sig + [c])
              && next <= outlen + 1 && (next > outlen <==> SpillsAt(sig + [c], |sig| + 1, outlen))
              && (forall i :: next <= i < out.Length ==> out[i] == old(out[i]))
  {
    hide Decoded, IsShaped, OverflowsAt, Pads, Number, RoomFor, BytesOf, Progress, FitsSoFar, SpillsAt;
    GroupEnds(sig, c, outlen, was, z, 3 - Pads(sig));
    if z + g > outlen {
      return false, z;
    }
    GroupSpills(sig, c, outlen, was, z, 3 - Pads(sig));
    next := WriteGroup(out, z, t, g);
    return true, next;
  }

  /** `base64_decode`. It succeeds exactly on shaped symbols filling their groups, given the room it
      asks for. `done` is how many symbols it turned into bytes, on failure too; what it wrote goes
      past the bound exactly when some group spills, by one byte, and this is the only case that
      needs a longer array. */
  method Decode(input: seq<byte>, out: array<byte>, outlen: nat)
    returns (status: Status, newlen: nat, ghost done: nat)
    requires outlen <= out.Length && (Spills(Significant(input), outlen) ==> outlen < out.Length)
    modifies out
    ensures var sig := Significant(input);
            && (status == OK <==> IsAccepted(sig) && RoomFor(sig) <= outlen)
            && (status == BUFFER_OVERFLOW <==> exists k: nat :: OverflowsAt(sig, k, outlen))
            && (status == OK ==> newlen == |Decoded(sig)| && done == |sig|)
            && (status != OK ==> newlen == outlen)
    ensures var sig := Significant(input);
            && done <= |sig| && done % 4 == 0
            && var written := Decoded(sig[..done]);
               && |written| <= outlen + 1 && (|written| > outlen <==> Spills(sig, outlen))
               && |written| <= out.Length && out[..|written|] == written
               && (forall i :: |written| <= i < out.Length ==> out[i] == old(out[i]))
  {
    hide Significant, Decoded, IsShaped, OverflowsAt, Pads, Number, RoomFor, BytesOf, Map, Progress, FitsSoFar,
      Spills, SpillsAt;
    ghost var full := Significant(input);
    var t: nat, y: nat, z: nat, x: nat, g := 0, 0, 0, 0, 3;
    ghost var sig: seq<nat> := [];
    NothingYet(outlen);
    NothingSpills(outlen);
    assert input[..0] == [];
    SignificantOfNothing();
    while x < |input|
      invariant 0 <= x <= |input| && sig == Significant(input[..x]) && sig <= full
      invariant y < 4 && y <= |sig| && Progress(sig, outlen, t, y, z, g)
      invariant z <= out.Length && out[..z] == Decoded(sig[..|sig| - y])
      invariant forall i :: z <= i < out.Length ==> out[i] == old(out[i])
      invariant z <= outlen + 1 && (z > outlen <==> Spills(sig, outlen))
    {
      var c := Map(input[x]);
      SignificantNext(input, x);
      ProgressMeans(sig, outlen, t, y, z, g);
      if c != IGNORED {
        assert sig + [c] <= full && full[..|sig| + 1] == sig + [c] && full[..|sig|] == sig;
        SnocIsShaped(sig, c);
        done := |sig| - y;
        StopsEarly(full, |sig|);
        if c == PAD {
          g := g - 1;
          if g < 0 {
            StopsInvalid(full, |sig|, outlen);
            FitsIsNoOverflow(full, outlen);
            BrokenStopsSpilling(full, |sig|, outlen);
            return INVALID_PACKET, outlen, done;
          }
        } else if g != 3 {
          StopsInvalid(full, |sig|, outlen);
          FitsIsNoOverflow(full, outlen);
          BrokenStopsSpilling(full, |sig|, outlen);
          return INVALID_PACKET, outlen, done;
        }
        SpillsNext(sig, c, outlen);
        var was := t;
        t := t * 64 + (if c == PAD then 0 else c);
        y := y + 1;
        if y == 4 {
          var fits;
          SpillOfPrefix(full, |sig| + 1, outlen);
          fits, z := EndGroup(out, outlen, z, t, g, sig, c, was);
          if !fits {
            OverflowOfPrefix(full, |sig| + 1, outlen);
            NoSpillAtOverflow(full, |sig| + 1, outlen);
            return BUFFER_OVERFLOW, outlen, done;
          }
          y, t := 0, 0;
          assert (sig + [c])[..|sig| + 1] == sig + [c];
        } else {
          SameGroup(sig, c, outlen, was, y - 1, z, 3 - Pads(sig));
          SpillsWithGroup(sig, c, outlen);
        }
        sig := sig + [c];
      }
      x := x + 1;
    }
    assert input[..x] == input;
    ProgressMeans(sig, outlen, t, y, z, g);
    FitsIsNoOverflow(sig, outlen);
    done := |sig| - y;
    if y != 0 {
      return INVALID_PACKET, outlen, done;
    }
    assert sig[..|sig|] == sig;
    EndsWithRoom(sig, outlen);
    return OK, z, done;
  }

  lemma NothingSpills(outlen: nat)
    ensures !Spills([], outlen)
  {
  }

  lemma SpillsWithGroup(sig: seq<nat>, v: nat, outlen: nat)
    requires IsShaped(sig + [v]) && |sig| % 4 != 3
    ensures !Spills(sig + [v], outlen)
  {
    hide IsShaped, Pads, RoomFor, Spills;
    SpillsNext(sig, v, outlen);
    NextInGroup(|sig|);
  }

  lemma SpillOfPrefix(sig: seq<nat>, n: nat, outlen: nat)
    requires n <= |sig|
    ensures SpillsAt(sig[..n], n, outlen) ==> Spills(sig, outlen)
  {
    assert sig[..n][..n] == sig[..n];
    if SpillsAt(sig[..n], n, outlen) {
      assert SpillsAt(sig, n, outlen);
    }
  }

  lemma NoSpillAtOverflow(sig: seq<nat>, n: nat, outlen: nat)
    requires 0 < n <= |sig| && OverflowsAt(sig, n, outlen)
    ensures !Spills(sig, outlen)
  {
    hide Pads, IsShaped, Spills;
    var more := sig[..n];
    assert more == more[..n - 1] + [more[n - 1]] && more[..n] == more;
    SpillsNext(more[..n - 1], more[n - 1], outlen);
    OverflowStopsSpilling(sig, n, outlen);
  }

  lemma FitsIsNoOverflow(sig: seq<nat>, outlen: nat)
    requires FitsSoFar(sig, outlen)
    ensures forall k: nat :: !OverflowsAt(sig, k, outlen)
  {
    hide OverflowsAt;
  }

  lemma EndsWithRoom(sig: seq<nat>, outlen: nat)
    requires IsAccepted(sig) && FitsSoFar(sig, outlen)
    ensures RoomFor(sig) <= outlen
  {
    assert sig[..|sig|] == sig;
    assert !OverflowsAt(sig, |sig|, outlen);
  }

  lemma NothingYet(outlen: nat)
    ensures Progress([], outlen, 0, 0, 0, 3) && Decoded([]) == []
  {
  }

  lemma SignificantOfNothing()
    ensures Significant([]) == []
  {
  }

  lemma PadsSoFar(sig: seq<nat>, n: nat)
    requires n <= |sig|
    ensures Pads(sig[..n]) <= Pads(sig)
  {
    PadsOfConcat(sig[..n], sig[n..]);
    assert sig == sig[..n] + sig[n..];
  }

  lemma OverflowOfPrefix(sig: seq<nat>, n: nat, outlen: nat)
    requires n <= |sig| && OverflowsAt(sig[..n], n, outlen)
    ensures OverflowsAt(sig, n, outlen)
    ensures !(IsAccepted(sig) && RoomFor(sig) <= outlen)
  {
    assert sig[..n][..n] == sig[..n];
    OverflowIsNoSuccess(sig, n, outlen);
  }

  // ----- Decoding undoes encoding

  lemma NumberOfFour(q: seq<nat>)
    requires |q| == 4
    ensures Number(q) == ValueOf(q[0]) * 262144 + ValueOf(q[1]) * 4096 + ValueOf(q[2]) * 64 + ValueOf(q[3])
  {
    hide ValueOf;
    assert q == (([] + [q[0]]) + [q[1]] + [q[2]]) + [q[3]];
    NumberSnoc([], q[0]);
    NumberSnoc([] + [q[0]], q[1]);
    NumberSnoc([] + [q[0]] + [q[1]], q[2]);
    NumberSnoc([] + [q[0]] + [q[1]] + [q[2]], q[3]);
    NumberOfNothing();
  }

  lemma DigitsRecombine(g: nat)
    requires g < 0x100_0000
    ensures Digit(g, 0) * 262144 + Digit(g, 1) * 4096 + Digit(g, 2) * 64 + Digit(g, 3) == g
  {
    assert g / 4096 == (g / 64) / 64;
    assert g / 262144 == (g / 4096) / 64;
  }

  lemma BytesOfBits(a: byte, b: byte, c: byte)
    ensures BytesOf(Bits24(a, b, c)) == [a, b, c]
  {
    var g := Bits24(a, b, c);
    assert g / 65536 == a;
    assert g / 256 == a * 256 + b;
  }

  /** The low digits of a number with few bytes are zero, so replacing them by pads keeps it. */
  lemma LowDigitsAreZero(a: byte, b: byte)
    ensures Digit(Bits24(a, 0, 0), 2) == 0 && Digit(Bits24(a, b, 0), 3) == 0
  {
    ShiftsPickDigits(a, 0, 0);
    ShiftsPickDigits(a, b, 0);
  }

  lemma NumberOfGroup(bs: seq<byte>)
    requires 1 <= |bs| <= 3
    ensures var q := GroupSymbols(bs);
            && Number(q) == Bits24(bs[0], if |bs| > 1 then bs[1] else 0, if |bs| > 2 then bs[2] else 0)
            && Pads(q) == 3 - |bs| && IsShaped(q)
  {
    hide Number, Pads, Digit;
    var q := GroupSymbols(bs);
    var a, b, c := bs[0], if |bs| > 1 then bs[1] else 0, if |bs| > 2 then bs[2] else 0;
    LowDigitsAreZero(a, b);
    DigitsRecombine(Bits24(a, b, c));
    NumberOfFour(q);
    PadsOfFour(q);
  }

  lemma GroupRoundTrip(bs: seq<byte>)
    requires 1 <= |bs| <= 3
    ensures GroupBytes(GroupSymbols(bs)) == bs && IsShaped(GroupSymbols(bs)) && Pads(GroupSymbols(bs)) == 3 - |bs|
  {
    hide GroupSymbols, Bits24, Number, Pads, BytesOf;
    NumberOfGroup(bs);
    BytesOfBits(bs[0], if |bs| > 1 then bs[1] else 0, if |bs| > 2 then bs[2] else 0);
  }

  lemma ShapeOfConcat(s: seq<nat>, t: seq<nat>)
    requires Pads(s) == 0 && IsShaped(t)
    ensures IsShaped(s + t) && Pads(s + t) == Pads(t)
  {
    hide Pads;
    NoPads(s);
    PadsOfConcat(s, t);
    forall i: nat | i < |s| ensures s[i] != PAD {
      assert s[i] in s;
    }
  }

  /** The symbols of some bytes are accepted, ask for exactly the room of the bytes, and decode
      to them. */
  lemma {:induction false} DecodedSymbols(bs: seq<byte>)
    ensures var sig := Symbols(bs); IsAccepted(sig) && RoomFor(sig) == |bs| && Decoded(sig) == bs
    decreases |bs|
  {
    hide GroupSymbols, GroupBytes, Pads;
    NothingDecoded();
    SymbolsLength(bs);
    if 0 < |bs| <= 3 {
      GroupRoundTrip(bs);
    } else if |bs| > 3 {
      var group, rest := GroupSymbols(bs[..3]), Symbols(bs[3..]);
      GroupRoundTrip(bs[..3]);
      DecodedSymbols(bs[3..]);
      ShapeOfConcat(group, rest);
      SymbolsLength(bs[3..]);
      assert (group + rest)[..4] == group && (group + rest)[4..] == rest;
    }
  }

  lemma {:induction false} SignificantOfConcat(a: seq<byte>, b: seq<byte>)
    ensures Significant(a + b) == Significant(a) + Significant(b)
    decreases |b|
  {
    hide Map;
    if b == [] {
      assert a + b == a;
    } else {
      var n := |b| - 1;
      assert (a + b)[..|a + b| - 1] == a + b[..n];
      SignificantOfConcat(a, b[..n]);
    }
  }

  /** Characters outside the alphabet never change what is decoded. */
  lemma IgnoredCharactersDoNotMatter(a: seq<byte>, skipped: seq<byte>, b: seq<byte>)
    requires forall c :: c in skipped ==> Map(c) == IGNORED
    ensures Significant(a + skipped + b) == Significant(a + b)
  {
    hide Significant, Map;
    SignificantOfConcat(a + skipped, b);
    SignificantOfConcat(a, skipped);
    SignificantOfConcat(a, b);
    AllIgnored(skipped);
  }

  lemma {:induction false} AllIgnored(skipped: seq<byte>)
    requires forall c :: c in skipped ==> Map(c) == IGNORED
    ensures Significant(skipped) == []
    decreases |skipped|
  {
    if skipped != [] {
      AllIgnored(skipped[..|skipped| - 1]);
    }
  }

  lemma CharacterMapsBack(v: nat)
    requires IsSymbol(v)
    ensures Map(CharacterOf(v)) == v
  {
  }

  /** Writing symbols as characters loses nothing; reading characters as symbols loses only the
      ignored ones. */
  lemma {:induction false} SignificantOfCharacters(sig: seq<nat>)
    requires AreSymbols(sig)
    ensures Significant(Characters(sig)) == sig
  {
    hide Map, CharacterOf;
    if sig != [] {
      var n := |sig| - 1;
      SignificantOfCharacters(sig[..n]);
      CharacterMapsBack(sig[n]);
      assert Characters(sig)[..n] == Characters(sig[..n]);
    }
  }

  lemma {:induction false} CharactersOfSignificant(input: seq<byte>)
    ensures |Significant(input)| <= |input|
    ensures Characters(Significant(input)) == input <==> forall c :: c in input ==> Map(c) != IGNORED
    decreases |input|
  {
    hide Map, CharacterOf;
    if input != [] {
      var n := |input| - 1;
      var front, c := input[..n], input[n];
      assert input == front + [c];
      CharactersOfSignificant(front);
      var sig := Significant(front);
      if Map(c) != IGNORED {
        MapsFromCharacter(c);
        assert Characters(sig + [Map(c)]) == Characters(sig) + [c];
      }
    }
  }

  lemma MapsFromCharacter(c: byte)
    requires Map(c) != IGNORED
    ensures CharacterOf(Map(c)) == c
  {
  }

  /** Decoding an encoding gives the bytes back, in room for exactly those bytes. */
  lemma DecodingUndoesEncoding(bs: seq<byte>)
    ensures var sig := Significant(Characters(Symbols(bs)));
            IsAccepted(sig) && RoomFor(sig) == |bs| && Decoded(sig) == bs
  {
    DecodedSymbols(bs);
    SignificantOfCharacters(Symbols(bs));
  }

  // ----- Encoding undoes decoding, on canonical strings

  /** At most two pads, and the bits that reach no byte are zero. */
  predicate IsCanonical(sig: seq<nat>)
    requires |sig| % 4 == 0
  {
    && Pads(sig) <= 2
    && (Pads(sig) == 2 ==> sig[|sig| - 3] % 16 == 0)
    && (Pads(sig) == 1 ==> sig[|sig| - 2] % 4 == 0)
  }

  lemma DigitsOfFour(p: nat, q: nat, r: nat, s: nat)
    requires p < 64 && q < 64 && r < 64 && s < 64
    ensures var g := p * 262144 + q * 4096 + r * 64 + s;
            Digit(g, 0) == p && Digit(g, 1) == q && Digit(g, 2) == r && Digit(g, 3) == s
  {
    var g := p * 262144 + q * 4096 + r * 64 + s;
    assert g / 262144 == p;
    assert g / 4096 == p * 64 + q;
    assert g / 64 == p * 4096 + q * 64 + r;
  }

  lemma BitsOfBytes(g: nat)
    requires g < 0x100_0000
    ensures var bs := BytesOf(g); Bits24(bs[0], bs[1], bs[2]) == g
  {
    assert g / 65536 == (g / 256) / 256;
  }

  /** What is left of a digit whose low bits are dropped. */
  function Trimmed(v: nat, unit: nat): (r: nat)
    requires unit > 0
    ensures r <= v
    ensures r == v <==> v % unit == 0
  {
    v - v % unit
  }

  lemma OnePadKeeps(p: nat, q: nat, r: nat)
    requires p < 64 && q < 64 && r < 64
    ensures var bs := BytesOf(p * 262144 + q * 4096 + r * 64);
            Bits24(bs[0], bs[1], 0) == p * 262144 + q * 4096 + Trimmed(r, 4) * 64
  {
    var g := p * 262144 + q * 4096 + r * 64;
    assert g / 256 == p * 1024 + q * 16 + r / 4;
    BitsOfBytes(g);
    assert g % 256 == (r % 4) * 64;
  }

  lemma FirstByteOf(p: nat, high: nat, low: nat)
    requires p < 64 && high < 4 && low < 16
    ensures BytesOf(p * 262144 + (high * 16 + low) * 4096)[0] == p * 4 + high
  {
    assert p * 262144 + (high * 16 + low) * 4096 == (p * 4 + high) * 65536 + low * 4096;
  }

  lemma TwoPadsKeep(p: nat, q: nat)
    requires p < 64 && q < 64
    ensures var bs := BytesOf(p * 262144 + q * 4096);
            Bits24(bs[0], 0, 0) == p * 262144 + Trimmed(q, 16) * 4096
  {
    hide BytesOf;
    FirstByteOf(p, q / 16, q % 16);
    assert q / 16 * 16 + q % 16 == q;
  }

  lemma FullGroupIsCanonical(q: seq<nat>)
    requires |q| == 4 && q[0] < 64 && q[1] < 64 && q[2] < 64 && q[3] < 64
    ensures GroupSymbols(BytesOf(Number(q))) == q
  {
    hide Number, BytesOf, Bits24, Digit;
    NumberOfFour(q);
    DigitsOfFour(q[0], q[1], q[2], q[3]);
    BitsOfBytes(Number(q));
  }

  lemma SymbolsOfTwo(bs: seq<byte>, p: nat, q: nat, r: nat)
    requires |bs| == 2 && p < 64 && q < 64 && r < 64
    requires Bits24(bs[0], bs[1], 0) == p * 262144 + q * 4096 + r * 64
    ensures GroupSymbols(bs) == [p, q, r, PAD]
  {
    hide Bits24, Digit;
    DigitsOfFour(p, q, r, 0);
  }

  lemma SymbolsOfOne(bs: seq<byte>, p: nat, q: nat)
    requires |bs| == 1 && p < 64 && q < 64
    requires Bits24(bs[0], 0, 0) == p * 262144 + q * 4096
    ensures GroupSymbols(bs) == [p, q, PAD, PAD]
  {
    hide Bits24, Digit;
    DigitsOfFour(p, q, 0, 0);
  }

  lemma OnePadIsCanonical(q: seq<nat>)
    requires |q| == 4 && q[0] < 64 && q[1] < 64 && q[2] < 64 && q[3] == PAD
    ensures GroupSymbols(BytesOf(Number(q))[..2]) == [q[0], q[1], Trimmed(q[2], 4), PAD]
  {
    NumberOfFour(q);
    OnePadKeeps(q[0], q[1], q[2]);
    hide Number, BytesOf, Bits24, GroupSymbols, Trimmed;
    SymbolsOfTwo(BytesOf(Number(q))[..2], q[0], q[1], Trimmed(q[2], 4));
  }

  lemma TwoPadsAreCanonical(q: seq<nat>)
    requires |q| == 4 && q[0] < 64 && q[1] < 64 && q[2] == PAD && q[3] == PAD
    ensures GroupSymbols(BytesOf(Number(q))[..1]) == [q[0], Trimmed(q[1], 16), PAD, PAD]
  {
    NumberOfFour(q);
    TwoPadsKeep(q[0], q[1]);
    hide Number, BytesOf, Bits24, GroupSymbols, Trimmed;
    SymbolsOfOne(BytesOf(Number(q))[..1], q[0], Trimmed(q[1], 16));
  }

  lemma ShapesOfFour(q: seq<nat>)
    requires |q| == 4 && AreSymbols(q) && IsShaped(q)
    ensures Pads(q) == 0 ==> q[0] < 64 && q[1] < 64 && q[2] < 64 && q[3] < 64
    ensures Pads(q) == 1 ==> q[0] < 64 && q[1] < 64 && q[2] < 64 && q[3] == PAD
    ensures Pads(q) == 2 ==> q[0] < 64 && q[1] < 64 && q[2] == PAD && q[3] == PAD
    ensures Pads(q) == 3 ==> q[1] == PAD
    ensures Pads(q) <= 3
  {
    PadsOfFour(q);
    hide Pads;
  }

  lemma FirstByteHasTwoDigits(bs: seq<byte>)
    requires |bs| == 1
    ensures GroupSymbols(bs)[1] < 64
  {
  }

  /** Three pads leave one symbol, which cannot fill the one byte that is written. */
  lemma GroupIsCanonical(q: seq<nat>)
    requires |q| == 4 && AreSymbols(q) && IsShaped(q)
    ensures GroupSymbols(GroupBytes(q)) == q <==> IsCanonical(q)
  {
    hide Pads, Number, BytesOf, GroupSymbols, IsShaped, Trimmed;
    ShapesOfFour(q);
    var k := Pads(q);
    if k == 0 {
      FullGroupIsCanonical(q);
      assert GroupBytes(q) == BytesOf(Number(q));
    } else if k == 1 {
      OnePadIsCanonical(q);
    } else if k == 2 {
      TwoPadsAreCanonical(q);
    } else {
      FirstByteHasTwoDigits(GroupBytes(q));
    }
  }

  lemma {:induction false} SymbolsDecoded(sig: seq<nat>)
    requires AreSymbols(sig) && IsAccepted(sig)
    ensures Symbols(Decoded(sig)) == sig <==> IsCanonical(sig)
    decreases |sig|
  {
    hide GroupSymbols, GroupBytes, Pads, IsShaped;
    NothingDecoded();
    if |sig| == 4 {
      GroupIsCanonical(sig);
      GroupLength(sig);
    } else if |sig| > 4 {
      var group, rest := sig[..4], sig[4..];
      assert sig == group + rest;
      FullGroupFirst(sig);
      SymbolsDecoded(rest);
      GroupIsCanonical(group);
      GroupLength(group);
      assert Decoded(sig)[..3] == GroupBytes(group) && Decoded(sig)[3..] == Decoded(rest);
      DecodedLength(rest);
      ShapedHasFewPads(rest);
    }
  }

  lemma GroupLength(q: seq<nat>)
    ensures |GroupBytes(q)| == if Pads(q) >= 2 then 1 else 3 - Pads(q)
  {
    hide Pads, BytesOf, Number;
  }

  lemma FullGroupFirst(sig: seq<nat>)
    requires IsAccepted(sig) && |sig| > 4
    ensures Pads(sig[..4]) == 0 && IsShaped(sig[..4])
    ensures IsAccepted(sig[4..]) && Pads(sig[4..]) == Pads(sig)
  {
    hide Pads;
    PadsInLastGroup(sig);
    PadsSoFar(sig[..|sig| - 4], 4);
    assert sig[..|sig| - 4][..4] == sig[..4];
    NoPads(sig[..4]);
    ShapeOfPrefix(sig, 4);
    PadsOfConcat(sig[..4], sig[4..]);
    assert sig == sig[..4] + sig[4..];
    assert forall i, j :: 0 <= i < j < |sig[4..]| && sig[4..][i] == PAD ==>
      sig[4..][j] == sig[j + 4] && sig[i + 4] == PAD;
  }

  /** Encoding what an accepted string decodes to gives the string back exactly when it holds no
      ignored character and its symbols are canonical. */
  lemma EncodingUndoesDecoding(input: seq<byte>)
    requires IsAccepted(Significant(input))
    ensures var sig := Significant(input);
            Characters(Symbols(Decoded(sig))) == input <==>
              (forall c :: c in input ==> Map(c) != IGNORED) && IsCanonical(sig)
  {
    hide Significant, Decoded, Symbols, Map, IsShaped, Pads, CharacterOf;
    var sig := Significant(input);
    SymbolsDecoded(sig);
    CharactersOfSignificant(input);
    if Characters(Symbols(Decoded(sig))) == input {
      SignificantOfCharacters(Symbols(Decoded(sig)));
    }
  }

  /** The first `k` symbols pass every test on the room and still decode to more than the bound. */
  predicate PassesBound(sig: seq<nat>, k: nat, outlen: nat) {
    k <= |sig| && IsAccepted(sig[..k]) && RoomFor(sig[..k]) <= outlen < |Decoded(sig[..k])|
  }

  /** The groups that spill are exactly those. */
  lemma SpillsPastBound(sig: seq<nat>, k: nat, outlen: nat)
    ensures SpillsAt(sig, k, outlen) <==> PassesBound(sig, k, outlen)
  {
    hide Decoded, Pads, IsShaped;
    NothingDecoded();
    if k <= |sig| && IsAccepted(sig[..k]) {
      DecodedLength(sig[..k]);
      ShapedHasFewPads(sig[..k]);
    }
  }

  /** `A===` spills in no room, and is accepted. */
  lemma ThreePadsSpill()
    ensures var sig := Significant([65, 61, 61, 61]);
            && sig == [0, PAD, PAD, PAD] && IsAccepted(sig) && RoomFor(sig) == 0
            && |Decoded(sig)| == 1 && SpillsAt(sig, 4, 0)
  {
    var sig := [0, PAD, PAD, PAD];
    SignificantOfCharacters(sig);
    assert Characters(sig) == [65, 61, 61, 61];
    PadsOfFour(sig);
    assert sig[..4] == sig;
    DecodedLength(sig);
  }

  /** `A===B` spills just the same before it is rejected. */
  lemma SpillsAndIsRejected()
    ensures var sig := Significant([65, 61, 61, 61, 66]);
            sig == [0, PAD, PAD, PAD, 1] && !IsShaped(sig) && SpillsAt(sig, 4, 0)
  {
    var sig := [0, PAD, PAD, PAD, 1];
    SignificantOfCharacters(sig);
    assert Characters(sig) == [65, 61, 61, 61, 66];
    ThreePadsSpill();
    assert Significant([65, 61, 61, 61]) == sig[..4];
    assert sig[1] == PAD && sig[4] != PAD;
  }

  /** `A=B=C=` is rejected at `B` and spills in no room at all. */
  lemma ThreePadsApartDoNotSpill(outlen: nat)
    ensures var sig := Significant([65, 61, 66, 61, 67, 61]);
            sig == [0, PAD, 1, PAD, 2, PAD] && !Spills(sig, outlen)
  {
    var sig := [0, PAD, 1, PAD, 2, PAD];
    SignificantOfCharacters(sig);
    assert Characters(sig) == [65, 61, 66, 61, 67, 61];
    assert sig[..3][1] == PAD && sig[..3][2] != PAD;
    BrokenStopsSpilling(sig, 2, outlen);
    assert |sig[..2]| == 2;
  }
}
