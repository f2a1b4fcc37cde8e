/**
 * `urlBase64Encode` and `urlBase64Decode` of src/util.ts: the switch
 * between the standard base64 alphabet and the URL- and filename-safe
 * alphabet of section 5 of RFC 4648, with the `=` padding dropped as
 * section 3.2 of RFC 4648 allows.
 */
module UrlBase64 {

  /** `s.replace(/a/g, b)` for a one-character pattern: every `a` becomes `b`. */
  function ReplaceAll(s: string, a: char, b: char): (r: string)
    ensures |r| == |s|
    ensures forall i :: 0 <= i < |s| ==> r[i] == if s[i] == a then b else s[i]
  {
    if s == [] then [] else [if s[0] == a then b else s[0]] + ReplaceAll(s[1..], a, b)
  }

  /** `s.replace(/c/g, '')`: every `c` is deleted. */
  function RemoveAll(s: string, c: char): (r: string)
    ensures |r| <= |s|
    decreases |s|
  {
    if s == [] then [] else (if s[0] == c then [] else [s[0]]) + RemoveAll(s[1..], c)
  }

  /** `urlBase64Encode(str)` */
  function Encode(s: string): (r: string) {
    RemoveAll(ReplaceAll(ReplaceAll(s, '+', '-'), '/', '_'), '=')
  }

  /** `urlBase64Decode(str)` */
  function Decode(s: string): (r: string)
    ensures |r| == |s|
  {
    ReplaceAll(ReplaceAll(s, '-', '+'), '_', '/')
  }

  /** The number of `c` in `s`. */
  function Count(s: string, c: char): nat {
    multiset(s)[c]
  }

  /** Deleting `c` keeps every other character, in order, and drops all of them. */
  lemma {:induction false} RemoveAllSpec(s: string, c: char)
    ensures c !in RemoveAll(s, c)
    ensures |RemoveAll(s, c)| == |s| - Count(s, c)
    ensures forall d :: d != c ==> (d in RemoveAll(s, c) <==> d in s)
    ensures c !in s ==> RemoveAll(s, c) == s
    decreases |s|
  {
    if s != [] {
      RemoveAllSpec(s[1..], c);
      assert s == [s[0]] + s[1..];
      assert multiset(s) == multiset{s[0]} + multiset(s[1..]);
    }
  }

  /** The character `Encode` writes for one input character. */
  function UrlChar(c: char): char {
    if c == '+' then '-' else if c == '/' then '_' else c
  }

  /**
   * Encoding works character by character: a `=` is dropped, a `+` becomes
   * `-`, a `/` becomes `_`, and everything else is copied.
   */
  lemma {:induction false} EncodeSpec(s: string)
    ensures s == [] ==> Encode(s) == []
    ensures s != [] ==> Encode(s) == (if s[0] == '=' then [] else [UrlChar(s[0])]) + Encode(s[1..])
  {
    if s != [] {
      var t := ReplaceAll(ReplaceAll(s, '+', '-'), '/', '_');
      var t' := ReplaceAll(ReplaceAll(s[1..], '+', '-'), '/', '_');
      assert t == [UrlChar(s[0])] + t';
    }
  }

  /** The output has no `+`, no `/` and no `=`. */
  lemma EncodeAlphabet(s: string)
    ensures '+' !in Encode(s) && '/' !in Encode(s) && '=' !in Encode(s)
  {
    var t := ReplaceAll(ReplaceAll(s, '+', '-'), '/', '_');
    RemoveAllSpec(t, '=');
    assert '+' !in t && '/' !in t;
  }

  /** Exactly the padding characters are dropped. */
  lemma EncodeLength(s: string)
    ensures |Encode(s)| == |s| - Count(s, '=')
  {
    var t := ReplaceAll(ReplaceAll(s, '+', '-'), '/', '_');
    RemoveAllSpec(t, '=');
    ReplaceCount(s, '+', '-', '=');
    ReplaceCount(ReplaceAll(s, '+', '-'), '/', '_', '=');
  }

  /** Replacing `a` by `b` leaves the number of a third character `c` alone. */
  lemma {:induction false} ReplaceCount(s: string, a: char, b: char, c: char)
    requires c != a && c != b
    ensures Count(ReplaceAll(s, a, b), c) == Count(s, c)
    decreases |s|
  {
    if s != [] {
      ReplaceCount(s[1..], a, b, c);
      var r := ReplaceAll(s, a, b);
      assert s == [s[0]] + s[1..];
      assert r == [r[0]] + ReplaceAll(s[1..], a, b);
      assert multiset(s) == multiset{s[0]} + multiset(s[1..]);
      assert multiset(r) == multiset{r[0]} + multiset(ReplaceAll(s[1..], a, b));
    }
  }

  /** Decoding has no `-` and no `_` left, and it does not restore padding. */
  lemma DecodeAlphabet(s: string)
    ensures '-' !in Decode(s) && '_' !in Decode(s)
    ensures '=' in Decode(s) <==> '=' in s
  {
  }

  /** Decoding undoes encoding up to the dropped padding, when the input had no `-` or `_`. */
  lemma {:induction false} DecodeEncode(s: string)
    requires '-' !in s && '_' !in s
    ensures Decode(Encode(s)) == RemoveAll(s, '=')
    decreases |s|
  {
    if s != [] {
      EncodeSpec(s);
      DecodeEncode(s[1..]);
      var head := if s[0] == '=' then [] else [UrlChar(s[0])];
      DecodeAppend(head, Encode(s[1..]));
      assert s[0] != '=' ==> Decode(head) == [s[0]];
    }
  }

  /** The character `Decode` writes for one input character. */
  function StdChar(c: char): char {
    if c == '-' then '+' else if c == '_' then '/' else c
  }

  lemma DecodeAt(s: string, i: nat)
    requires i < |s|
    ensures Decode(s)[i] == StdChar(s[i])
  {
  }

  /** Decoding distributes over concatenation. */
  lemma DecodeAppend(s: string, t: string)
    ensures Decode(s + t) == Decode(s) + Decode(t)
  {
    var l, r := Decode(s + t), Decode(s) + Decode(t);
    forall i | 0 <= i < |s + t|
      ensures l[i] == r[i]
    {
      DecodeAt(s + t, i);
      if i < |s| {
        DecodeAt(s, i);
      } else {
        DecodeAt(t, i - |s|);
      }
    }
  }

  /** Encoding an encoded string changes nothing. */
  lemma EncodeIdempotent(s: string)
    ensures Encode(Encode(s)) == Encode(s)
  {
    var e := Encode(s);
    EncodeAlphabet(s);
    assert ReplaceAll(e, '+', '-') == e;
    assert ReplaceAll(e, '/', '_') == e;
    RemoveAllSpec(e, '=');
  }

  /** Decoding a decoded string changes nothing. */
  lemma DecodeIdempotent(s: string)
    ensures Decode(Decode(s)) == Decode(s)
  {
    var d := Decode(s);
    DecodeAlphabet(s);
    assert ReplaceAll(d, '-', '+') == d;
    assert ReplaceAll(d, '_', '/') == d;
  }

  /** The standard base64 alphabet with its padding character (section 4 of RFC 4648). */
  predicate IsBase64Char(c: char) {
    'A' <= c <= 'Z' || 'a' <= c <= 'z' || '0' <= c <= '9' || c == '+' || c == '/' || c == '='
  }

  /** The URL- and filename-safe alphabet (section 5 of RFC 4648). */
  predicate IsUrlChar(c: char) {
    'A' <= c <= 'Z' || 'a' <= c <= 'z' || '0' <= c <= '9' || c == '-' || c == '_'
  }

  /** A standard base64 text becomes a text over the URL-safe alphabet. */
  lemma {:induction false} EncodeUrlSafe(s: string)
    requires forall i :: 0 <= i < |s| ==> IsBase64Char(s[i])
    ensures forall i :: 0 <= i < |Encode(s)| ==> IsUrlChar(Encode(s)[i])
    decreases |s|
  {
    if s != [] {
      EncodeSpec(s);
      EncodeUrlSafe(s[1..]);
    }
  }
}
