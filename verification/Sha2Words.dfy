/** Words of SHA-2 as bytes: the macros REVERSE32 and REVERSE64 (common/sha2.c:83-97), big-endian loads
    (common/sha2.c:407-408, 731-734) and the little-endian memory image of a word. */
module Sha2Words {

  type Byte = bv8

  function Byte32(w: bv32, shift: bv6): Byte
    requires shift <= 24
  {
    ((w >> shift) & 0xff) as bv8
  }

  function Join32(b0: Byte, b1: Byte, b2: Byte, b3: Byte): bv32 {
    b0 as bv32 | (b1 as bv32 << 8) | (b2 as bv32 << 16) | (b3 as bv32 << 24)
  }

  function Big32(w: bv32): seq<Byte> { [Byte32(w, 24), Byte32(w, 16), Byte32(w, 8), Byte32(w, 0)] }
  function Little32(w: bv32): (s: seq<Byte>) ensures |s| == 4 { [Byte32(w, 0), Byte32(w, 8), Byte32(w, 16), Byte32(w, 24)] }
  function LoadBig32(s: seq<Byte>): bv32 { if |s| == 4 then Join32(s[3], s[2], s[1], s[0]) else 0 }
  function LoadLittle32(s: seq<Byte>): bv32 { if |s| == 4 then Join32(s[0], s[1], s[2], s[3]) else 0 }

  function Reverse32(w: bv32): bv32 {
    var tmp := (w >> 16) | (w << 16);
    ((tmp & 0xff00ff00) >> 8) | ((tmp & 0x00ff00ff) << 8)
  }

  lemma ReverseBytes32(w: bv32)
    ensures var r := Reverse32(w);
            && Byte32(r, 0) == Byte32(w, 24) && Byte32(r, 8) == Byte32(w, 16)
            && Byte32(r, 16) == Byte32(w, 8) && Byte32(r, 24) == Byte32(w, 0)
  {
  }

  lemma JoinBytes32(w: bv32)
    ensures Join32(Byte32(w, 0), Byte32(w, 8), Byte32(w, 16), Byte32(w, 24)) == w
  {
  }

  /** Storing the reversed word in host order stores the word big-endian; loads undo stores. */
  lemma Words32(w: bv32)
    ensures Little32(Reverse32(w)) == Big32(w)
    ensures LoadLittle32(Little32(w)) == w && LoadBig32(Big32(w)) == w
  {
    hide Reverse32, Byte32, Join32;
    ReverseBytes32(w);
    JoinBytes32(w);
  }

  function Byte64(w: bv64, shift: bv7): Byte
    requires shift <= 56
  {
    ((w >> shift) & 0xff) as bv8
  }

  function Join64(b0: Byte, b1: Byte, b2: Byte, b3: Byte, b4: Byte, b5: Byte, b6: Byte, b7: Byte): bv64 {
    b0 as bv64 | (b1 as bv64 << 8) | (b2 as bv64 << 16) | (b3 as bv64 << 24) |
    (b4 as bv64 << 32) | (b5 as bv64 << 40) | (b6 as bv64 << 48) | (b7 as bv64 << 56)
  }

  function Big64(w: bv64): (s: seq<Byte>)
    ensures |s| == 8
  {
    [Byte64(w, 56), Byte64(w, 48), Byte64(w, 40), Byte64(w, 32), Byte64(w, 24), Byte64(w, 16), Byte64(w, 8), Byte64(w, 0)]
  }

  function Little64(w: bv64): (s: seq<Byte>)
    ensures |s| == 8
  {
    [Byte64(w, 0), Byte64(w, 8), Byte64(w, 16), Byte64(w, 24), Byte64(w, 32), Byte64(w, 40), Byte64(w, 48), Byte64(w, 56)]
  }

  function LoadBig64(s: seq<Byte>): bv64 {
    if |s| == 8 then Join64(s[7], s[6], s[5], s[4], s[3], s[2], s[1], s[0]) else 0
  }

  function LoadLittle64(s: seq<Byte>): bv64 {
    if |s| == 8 then Join64(s[0], s[1], s[2], s[3], s[4], s[5], s[6], s[7]) else 0
  }

  function Reverse64(w: bv64): bv64 {
    var t1 := (w >> 32) | (w << 32);
    var t2 := ((t1 & 0xff00ff00ff00ff00) >> 8) | ((t1 & 0x00ff00ff00ff00ff) << 8);
    ((t2 & 0xffff0000ffff0000) >> 16) | ((t2 & 0x0000ffff0000ffff) << 16)
  }

  lemma ReverseBytes64(w: bv64)
    ensures var r := Reverse64(w);
            && Byte64(r, 0) == Byte64(w, 56) && Byte64(r, 8) == Byte64(w, 48)
            && Byte64(r, 16) == Byte64(w, 40) && Byte64(r, 24) == Byte64(w, 32)
            && Byte64(r, 32) == Byte64(w, 24) && Byte64(r, 40) == Byte64(w, 16)
            && Byte64(r, 48) == Byte64(w, 8) && Byte64(r, 56) == Byte64(w, 0)
  {
  }

  lemma JoinBytes64(w: bv64)
    ensures Join64(Byte64(w, 0), Byte64(w, 8), Byte64(w, 16), Byte64(w, 24), Byte64(w, 32), Byte64(w, 40), Byte64(w, 48), Byte64(w, 56)) == w
  {
  }

  lemma Words64(w: bv64)
    ensures Little64(Reverse64(w)) == Big64(w)
    ensures LoadLittle64(Little64(w)) == w && LoadBig64(Big64(w)) == w
  {
    hide Reverse64, Byte64, Join64;
    ReverseBytes64(w);
    JoinBytes64(w);
  }
}
