/**
  UTF-8 as defined by RFC 3629: the strict decoder that Python's
  `bytes.decode('utf-8')` applies, and the encoder behind `str.encode('utf-8')`.

  A Python `str` is a sequence of code points 0..0x10FFFF and may hold lone
  surrogates; only scalar values (code points outside 0xD800..0xDFFF) have a
  UTF-8 encoding.
 */
module Utf8 {
  import opened Wrappers

  type Byte = b: int | 0 <= b < 0x100
  type CodePoint = c: int | 0 <= c < 0x11_0000

  /** Python's `str`: a sequence of code points. */
  type UString = seq<CodePoint>

  predicate IsScalar(c: CodePoint) {
    !(0xD800 <= c <= 0xDFFF)
  }

  predicate AllScalar(s: UString) {
    forall i :: 0 <= i < |s| ==> IsScalar(s[i])
  }

  /** A continuation byte, `UTF8-tail` in section 4 of RFC 3629. */
  predicate IsTail(b: Byte) {
    0x80 <= b <= 0xBF
  }

  /** The length of the sequence a lead byte announces; 0 for a byte no sequence starts with. */
  function Width(lead: Byte): nat {
    if lead <= 0x7F then 1
    else if 0xC2 <= lead <= 0xDF then 2
    else if 0xE0 <= lead <= 0xEF then 3
    else if 0xF0 <= lead <= 0xF4 then 4
    else 0
  }

  /** The `UTF8-char` rule of section 4 of RFC 3629, byte range by byte range. */
  predicate WellFormedChar(u: seq<Byte>) {
    || (|u| == 1 && u[0] <= 0x7F)
    || (|u| == 2 && 0xC2 <= u[0] <= 0xDF && IsTail(u[1]))
    || (|u| == 3 && IsTail(u[2]) &&
        (|| (u[0] == 0xE0 && 0xA0 <= u[1] <= 0xBF)
         || (0xE1 <= u[0] <= 0xEC && IsTail(u[1]))
         || (u[0] == 0xED && 0x80 <= u[1] <= 0x9F)
         || (0xEE <= u[0] <= 0xEF && IsTail(u[1]))))
    || (|u| == 4 && IsTail(u[2]) && IsTail(u[3]) &&
        (|| (u[0] == 0xF0 && 0x90 <= u[1] <= 0xBF)
         || (0xF1 <= u[0] <= 0xF3 && IsTail(u[1]))
         || (u[0] == 0xF4 && 0x80 <= u[1] <= 0x8F)))
  }

  /**
    The code point a well-formed sequence stands for. The well-formedness rule
    excludes overlong forms, so the value lies in the range its length is used for,
    and it excludes surrogates.
   */
  function CharValue(u: seq<Byte>): (c: CodePoint)
    requires WellFormedChar(u)
    ensures IsScalar(c)
    ensures |u| == 1 <==> c < 0x80
    ensures |u| == 2 <==> 0x80 <= c < 0x800
    ensures |u| == 3 <==> 0x800 <= c < 0x1_0000
    ensures |u| == 4 <==> 0x1_0000 <= c
  {
    if |u| == 1 then u[0]
    else if |u| == 2 then (u[0] as int - 0xC0) * 0x40 + (u[1] as int - 0x80)
    else if |u| == 3 then (u[0] as int - 0xE0) * 0x1000 + (u[1] as int - 0x80) * 0x40 + (u[2] as int - 0x80)
    else (u[0] as int - 0xF0) * 0x4_0000 + (u[1] as int - 0x80) * 0x1000 + (u[2] as int - 0x80) * 0x40 + (u[3] as int - 0x80)
  }

  /**
    The shortest (and only) well-formed encoding of a scalar value: its bits in
    groups of six, the top group in the lead byte.
   */
  function EncodeChar(c: CodePoint): (u: seq<Byte>)
    requires IsScalar(c)
    ensures WellFormedChar(u) && CharValue(u) == c
  {
    if c < 0x80 then [c]
    else
      var lo, c1 := c % 0x40, c / 0x40;
      assert c == c1 * 0x40 + lo;
      if c < 0x800 then [0xC0 + c1, 0x80 + lo]
      else
        var mid, c2 := c1 % 0x40, c1 / 0x40;
        assert c1 == c2 * 0x40 + mid;
        if c < 0x1_0000 then [0xE0 + c2, 0x80 + mid, 0x80 + lo]
        else
          var hi, c3 := c2 % 0x40, c2 / 0x40;
          assert c2 == c3 * 0x40 + hi;
          [0xF0 + c3, 0x80 + hi, 0x80 + mid, 0x80 + lo]
  }

  /** A well-formed sequence is the encoding of its value: the encoding is a bijection. */
  lemma EncodeCharValue(u: seq<Byte>)
    requires WellFormedChar(u)
    ensures EncodeChar(CharValue(u)) == u
  {
    if |u| == 2 {
      Split(u[0] as int - 0xC0, u[1] as int - 0x80);
    } else if |u| == 3 {
      EncodeCharValue3(u);
    } else if |u| == 4 {
      EncodeCharValue4(u);
    }
  }

  lemma EncodeCharValue3(u: seq<Byte>)
    requires WellFormedChar(u) && |u| == 3
    ensures EncodeChar(CharValue(u)) == u
  {
    var a, b, d := u[0] as int - 0xE0, u[1] as int - 0x80, u[2] as int - 0x80;
    assert CharValue(u) == (a * 0x40 + b) * 0x40 + d;
    Split(a * 0x40 + b, d);
    Split(a, b);
  }

  lemma EncodeCharValue4(u: seq<Byte>)
    requires WellFormedChar(u) && |u| == 4
    ensures EncodeChar(CharValue(u)) == u
  {
    var a, b, d, e := u[0] as int - 0xF0, u[1] as int - 0x80, u[2] as int - 0x80, u[3] as int - 0x80;
    assert CharValue(u) == ((a * 0x40 + b) * 0x40 + d) * 0x40 + e;
    Split((a * 0x40 + b) * 0x40 + d, e);
    Split(a * 0x40 + b, d);
    Split(a, b);
  }

  /** Division by 64 recovers a group of six bits and what lies above it. */
  lemma Split(q: nat, r: nat)
    requires r < 0x40
    ensures (q * 0x40 + r) / 0x40 == q && (q * 0x40 + r) % 0x40 == r
  {
  }

  /** A well-formed sequence starts with a lead byte announcing its own length, followed by tails. */
  lemma WellFormedCharShape(u: seq<Byte>)
    requires WellFormedChar(u)
    ensures Width(u[0]) == |u| && !IsTail(u[0])
    ensures forall i :: 1 <= i < |u| ==> IsTail(u[i])
  {
  }

  /**
    Strict decoding, left to right: the first sequence whose lead byte is not
    followed by the bytes RFC 3629 allows makes the whole input undecodable.
   */
  function Decode(bs: seq<Byte>): (r: Option<UString>)
    ensures r.Some? ==> AllScalar(r.value) && |r.value| <= |bs|
    decreases |bs|
  {
    if bs == [] then Some([])
    else
      var n := Width(bs[0]);
      if n == 0 || |bs| < n || !WellFormedChar(bs[..n]) then None
      else
        match Decode(bs[n..])
        case None => None
        case Some(rest) => Some([CharValue(bs[..n])] + rest)
  }

  /** The UTF-8 encoding of a string of scalar values: one to four bytes per code point. */
  function Encode(s: UString): (bs: seq<Byte>)
    requires AllScalar(s)
    ensures |s| <= |bs| <= 4 * |s|
  {
    if s == [] then [] else EncodeChar(s[0]) + Encode(s[1..])
  }

  /** Decoding an encoding gives the string back. */
  lemma {:induction false} EncodeDecodes(s: UString)
    requires AllScalar(s)
    ensures Decode(Encode(s)) == Some(s)
  {
    if s != [] {
      var u, rest := EncodeChar(s[0]), Encode(s[1..]);
      var bs := u + rest;
      assert Encode(s) == bs;
      WellFormedCharShape(u);
      assert bs[0] == u[0] && Width(bs[0]) == |u|;
      assert bs[..|u|] == u && bs[|u|..] == rest;
      EncodeDecodes(s[1..]);
      assert Decode(bs) == Some([s[0]] + s[1..]);
      assert [s[0]] + s[1..] == s;
    }
  }

  /** `str.encode('utf-8')`: fails exactly on strings holding a surrogate. */
  function EncodeText(s: UString): (r: Option<seq<Byte>>)
    ensures r.Some? <==> AllScalar(s)
    ensures r.Some? ==> Decode(r.value) == Some(s)
  {
    if AllScalar(s) then EncodeDecodes(s); Some(Encode(s)) else None
  }

  lemma {:induction false} EncodeAppend(s: UString, t: UString)
    requires AllScalar(s) && AllScalar(t)
    ensures AllScalar(s + t) && Encode(s + t) == Encode(s) + Encode(t)
  {
    if s == [] {
      assert s + t == t;
    } else {
      var st := s + t;
      assert st[0] == s[0] && st[1..] == s[1..] + t;
      EncodeAppend(s[1..], t);
      calc {
        Encode(st);
        EncodeChar(s[0]) + Encode(s[1..] + t);
        EncodeChar(s[0]) + (Encode(s[1..]) + Encode(t));
        (EncodeChar(s[0]) + Encode(s[1..])) + Encode(t);
        Encode(s) + Encode(t);
      }
    }
  }

  /** The encoding of a prefix is a prefix of the encoding. */
  lemma EncodePrefix(s: UString, k: nat)
    requires AllScalar(s) && k <= |s|
    ensures Encode(s[..k]) <= Encode(s)
  {
    assert s == s[..k] + s[k..];
    EncodeAppend(s[..k], s[k..]);
  }

  /** One step of a successful decoding: the first sequence, then the rest. */
  lemma DecodeStep(bs: seq<Byte>)
    requires bs != [] && Decode(bs).Some?
    ensures 1 <= Width(bs[0]) <= |bs| && WellFormedChar(bs[..Width(bs[0])])
    ensures Decode(bs[Width(bs[0])..]).Some?
    ensures Decode(bs).value == [CharValue(bs[..Width(bs[0])])] + Decode(bs[Width(bs[0])..]).value
  {
  }

  /** Encoding a string that starts with the value of `u` starts with `u`. */
  lemma EncodeCons(u: seq<Byte>, rest: UString)
    requires WellFormedChar(u) && AllScalar(rest)
    ensures AllScalar([CharValue(u)] + rest)
    ensures Encode([CharValue(u)] + rest) == u + Encode(rest)
  {
    var s := [CharValue(u)] + rest;
    assert s[0] == CharValue(u) && s[1..] == rest;
    EncodeCharValue(u);
  }

  /** Decoding is injective and complete: whatever decodes is the encoding of its result. */
  lemma {:induction false} DecodeEncode(bs: seq<Byte>)
    requires Decode(bs).Some?
    ensures Encode(Decode(bs).value) == bs
    decreases |bs|
  {
    if bs != [] {
      var n := Width(bs[0]);
      assert 1 <= n <= |bs| && WellFormedChar(bs[..n]) && Decode(bs[n..]).Some? by {
        DecodeStep(bs);
      }
      var u, tail := bs[..n], bs[n..];
      var s, rest := Decode(bs).value, Decode(tail).value;
      assert s == [CharValue(u)] + rest by {
        DecodeStep(bs);
      }
      assert Encode(rest) == tail by {
        DecodeEncode(tail);
      }
      assert Encode(s) == u + tail by {
        EncodeCons(u, rest);
      }
      assert bs == u + tail;
    }
  }

  /** Concatenating decodable inputs concatenates their decodings. */
  lemma DecodeAppend(a: seq<Byte>, b: seq<Byte>)
    requires Decode(a).Some? && Decode(b).Some?
    ensures Decode(a + b) == Some(Decode(a).value + Decode(b).value)
  {
    var x, y := Decode(a).value, Decode(b).value;
    DecodeEncode(a);
    DecodeEncode(b);
    EncodeAppend(x, y);
    EncodeDecodes(x + y);
  }

  /**
    An independent reading of RFC 3629's `UTF8-octets = *( UTF8-char )`: the
    input can be cut into well-formed sequences of some lengths.
   */
  ghost predicate WellFormed(bs: seq<Byte>)
    decreases |bs|
  {
    bs == [] || exists n :: 1 <= n <= |bs| && n <= 4 && WellFormedChar(bs[..n]) && WellFormed(bs[n..])
  }

  /** The decoder accepts exactly the inputs the grammar derives. */
  lemma {:induction false} DecodeAcceptsWellFormed(bs: seq<Byte>)
    ensures Decode(bs).Some? <==> WellFormed(bs)
    decreases |bs|
  {
    if bs != [] {
      var n := Width(bs[0]);
      if Decode(bs).Some? {
        DecodeAcceptsWellFormed(bs[n..]);
        assert 1 <= n <= |bs| && n <= 4 && WellFormedChar(bs[..n]) && WellFormed(bs[n..]);
      }
      if WellFormed(bs) {
        var m :| 1 <= m <= |bs| && m <= 4 && WellFormedChar(bs[..m]) && WellFormed(bs[m..]);
        WellFormedCharShape(bs[..m]);
        assert m == n;
        DecodeAcceptsWellFormed(bs[m..]);
      }
    }
  }

  /**
    Cutting decodable input after `k` bytes leaves decodable input exactly when
    byte `k` is not a continuation byte, i.e. the cut falls between sequences.
   */
  lemma {:induction false} CutDecodes(bs: seq<Byte>, k: nat)
    requires Decode(bs).Some? && k < |bs|
    ensures Decode(bs[..k]).Some? <==> !IsTail(bs[k])
    decreases |bs|
  {
    var n := Width(bs[0]);
    WellFormedCharShape(bs[..n]);
    assert bs[0] == bs[..n][0];
    if k == 0 {
      assert bs[..k] == [];
    } else if k < n {
      var cut := bs[..k];
      assert cut[0] == bs[0];
      assert bs[k] == bs[..n][k];
    } else {
      var cut := bs[..k];
      assert cut[0] == bs[0] && cut[..n] == bs[..n];
      assert cut[n..] == bs[n..][..k - n];
      assert bs[k] == bs[n..][k - n];
      if k - n < |bs[n..]| {
        CutDecodes(bs[n..], k - n);
      }
    }
  }
}
