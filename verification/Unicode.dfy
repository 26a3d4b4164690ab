/** Strict UTF-8 against the code points it stands for. */
module Unicode {
  import opened ByteStrings

  /** A code point that is not a surrogate. */
  predicate Scalar(c: nat) { c < 0xD800 || 0xE000 <= c < 0x11_0000 }

  function Encode(c: nat): (s: Bytes)
    requires Scalar(c)
    ensures 1 <= |s| <= 4
  {
    if c < 0x80 then [c]
    else if c < 0x800 then [0xC0 + c / 64, 0x80 + c % 64]
    else if c < 0x1_0000 then [0xE0 + c / 4096, 0x80 + c / 64 % 64, 0x80 + c % 64]
    else [0xF0 + c / 26_2144, 0x80 + c / 4096 % 64, 0x80 + c / 64 % 64, 0x80 + c % 64]
  }

  predicate Scalars(cs: seq<nat>) { forall k :: 0 <= k < |cs| ==> Scalar(cs[k]) }

  function EncodeAll(cs: seq<nat>): Bytes
    requires Scalars(cs)
  {
    if cs == [] then [] else Encode(cs[0]) + EncodeAll(cs[1..])
  }

  /** `s` is one well-formed sequence. */
  predicate One(s: Bytes) {
    && s != [] && |s| == LeadWidth(s[0])
    && (forall k :: 1 <= k < |s| ==> 0x80 <= s[k] < 0xC0)
    && (s[0] == 0xE0 ==> s[1] >= 0xA0) && (s[0] == 0xED ==> s[1] < 0xA0)
    && (s[0] == 0xF0 ==> s[1] >= 0x90) && (s[0] == 0xF4 ==> s[1] < 0x90)
  }

  lemma EncodedOne(c: nat)
    requires Scalar(c)
    ensures One(Encode(c))
  {
  }

  /** Each well-formed sequence stands for a code point. */
  lemma OneDecoded(s: Bytes) returns (c: nat)
    requires One(s)
    ensures Scalar(c) && Encode(c) == s
  {
    match |s| {
      case 1 => c := s[0];
      case 2 => c := Decode2(s[0] - 0xC0, s[1] - 0x80);
      case 3 => c := Decode3(s[0] - 0xE0, s[1] - 0x80, s[2] - 0x80);
      case _ => c := Decode4(s[0] - 0xF0, s[1] - 0x80, s[2] - 0x80, s[3] - 0x80);
    }
  }

  lemma Decode2(a: nat, b: nat) returns (c: nat)
    requires 2 <= a < 0x20 && b < 64
    ensures Scalar(c) && Encode(c) == [0xC0 + a, 0x80 + b]
  {
    c := 64 * a + b;
  }

  lemma Decode3(a: nat, b: nat, d: nat) returns (c: nat)
    requires a < 0x10 && b < 64 && d < 64 && (a == 0 ==> b >= 0x20) && (a == 0xD ==> b < 0x20)
    ensures Scalar(c) && Encode(c) == [0xE0 + a, 0x80 + b, 0x80 + d]
  {
    c := 4096 * a + 64 * b + d;
    assert c / 64 == 64 * a + b && c / 4096 == a;
  }

  lemma Decode4(a: nat, b: nat, d: nat, e: nat) returns (c: nat)
    requires a < 5 && b < 64 && d < 64 && e < 64 && (a == 0 ==> b >= 0x10) && (a == 4 ==> b < 0x10)
    ensures Scalar(c) && Encode(c) == [0xF0 + a, 0x80 + b, 0x80 + d, 0x80 + e]
  {
    c := 26_2144 * a + 4096 * b + 64 * d + e;
    assert c / 64 == 4096 * a + 64 * b + d && c / 4096 == 64 * a + b && c / 26_2144 == a;
  }

  /** A well-formed sequence in front of text is text. */
  lemma OneThenText(s: Bytes, t: Bytes)
    requires One(s) && Utf8(t)
    ensures Utf8(s + t)
  {
    forall i: nat | i < |s + t| ensures Utf8At(s + t, i) {
      if i >= |s| { assert Utf8At(t, i - |s|); }
    }
  }

  /** Text begins with a well-formed sequence and goes on as text. */
  lemma TextSplits(s: Bytes)
    requires Utf8(s) && s != []
    ensures var w := LeadWidth(s[0]); 1 <= w <= |s| && One(s[..w]) && Utf8(s[w..])
  {
    assert Utf8At(s, 0);
    var w := LeadWidth(s[0]);
    forall i: nat | i < |s| - w ensures Utf8At(s[w..], i) {
      assert Utf8At(s, w + i);
    }
  }

  lemma {:induction false} EncodedIsText(cs: seq<nat>)
    requires Scalars(cs)
    ensures Utf8(EncodeAll(cs))
    decreases |cs|
  {
    if cs != [] {
      EncodedIsText(cs[1..]);
      EncodedOne(cs[0]);
      OneThenText(Encode(cs[0]), EncodeAll(cs[1..]));
    }
  }

  lemma {:induction false} TextDecoded(s: Bytes) returns (cs: seq<nat>)
    requires Utf8(s)
    ensures Scalars(cs) && EncodeAll(cs) == s
    decreases |s|
  {
    cs := [];
    if s != [] {
      TextSplits(s);
      var w := LeadWidth(s[0]);
      var c := OneDecoded(s[..w]);
      var rest := TextDecoded(s[w..]);
      cs := [c] + rest;
      assert s == s[..w] + s[w..];
    }
  }

  /** A byte string is accepted as text exactly when it encodes some code points. */
  lemma Utf8Exact(s: Bytes)
    ensures Utf8(s) <==> exists cs :: Scalars(cs) && EncodeAll(cs) == s
  {
    if Utf8(s) {
      var cs := TextDecoded(s);
    }
    forall cs | Scalars(cs) && EncodeAll(cs) == s ensures Utf8(s) { EncodedIsText(cs); }
  }
}
