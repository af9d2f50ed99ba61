/**
 UTF-8, and why sorting text by its bytes (`COLLATE "C"`) is sorting it by code point (Python's
 `sorted`). The encoding is sections 1 and 3 of RFC 3629.
 */
module Utf8 {

  /** The bytes of one code point: its low six-bit groups, under the lead byte for its length. */
  function EncodeChar(c: char): (bytes: seq<int>)
    ensures 1 <= |bytes| <= 4 && forall b | b in bytes :: 0 <= b < 256
  {
    var n := c as int;
    var high, low := n / 64, n % 64;
    var higher, middle := high / 64, high % 64;
    if n < 0x80 then [n]
    else if n < 0x800 then [0xC0 + high, 0x80 + low]
    else if n < 0x1_0000 then [0xE0 + higher, 0x80 + middle, 0x80 + low]
    else [0xF0 + higher / 64, 0x80 + higher % 64, 0x80 + middle, 0x80 + low]
  }

  /** The table of section 3 of RFC 3629: how many bytes, which lead byte, and the bits they carry. */
  lemma EncodedAsTheTable(c: char)
    ensures var n, b := c as int, EncodeChar(c);
            && (n <= 0x7F ==> b == [n])
            && (0x80 <= n <= 0x7FF ==>
                  |b| == 2 && 0xC0 <= b[0] < 0xE0 && n == (b[0] - 0xC0) * 0x40 + (b[1] - 0x80))
            && (0x800 <= n <= 0xFFFF ==>
                  |b| == 3 && 0xE0 <= b[0] < 0xF0 && n == ((b[0] - 0xE0) * 0x40 + (b[1] - 0x80)) * 0x40 + (b[2] - 0x80))
            && (0x1_0000 <= n ==>
                  && |b| == 4 && 0xF0 <= b[0] < 0xF8
                  && n == (((b[0] - 0xF0) * 0x40 + (b[1] - 0x80)) * 0x40 + (b[2] - 0x80)) * 0x40 + (b[3] - 0x80))
            && forall i | 0 < i < |b| :: 0x80 <= b[i] < 0xC0
  {
  }

  function Encode(s: string): seq<int> {
    if s == "" then [] else EncodeChar(s[0]) + Encode(s[1..])
  }

  /** Dictionary order on numbers: bytes for one side, code points for the other. */
  predicate Precedes(a: seq<int>, b: seq<int>) {
    b != [] && (a == [] || a[0] < b[0] || (a[0] == b[0] && Precedes(a[1..], b[1..])))
  }

  function CodePoints(s: string): seq<int> {
    seq(|s|, i requires 0 <= i < |s| => s[i] as int)
  }

  predicate BytesPrecede(s: string, t: string) {
    Precedes(Encode(s), Encode(t))
  }

  predicate CodePointsPrecede(s: string, t: string) {
    Precedes(CodePoints(s), CodePoints(t))
  }

  lemma {:induction false} CommonPrefix(p: seq<int>, a: seq<int>, b: seq<int>)
    ensures Precedes(p + a, p + b) <==> Precedes(a, b)
  {
    if p == [] {
      assert p + a == a && p + b == b;
    } else {
      assert (p + a)[1..] == p[1..] + a && (p + b)[1..] == p[1..] + b;
      CommonPrefix(p[1..], a, b);
    }
  }

  lemma FirstDifference(p: seq<int>, x: int, a: seq<int>, y: int, b: seq<int>)
    requires x < y
    ensures Precedes(p + [x] + a, p + [y] + b) && !Precedes(p + [y] + b, p + [x] + a)
  {
    assert p + [x] + a == p + ([x] + a) && p + [y] + b == p + ([y] + b);
    CommonPrefix(p, [x] + a, [y] + b);
    CommonPrefix(p, [y] + b, [x] + a);
  }

  /** Where two different encodings first differ. */
  function FirstGap(u: seq<int>, v: seq<int>): (k: nat)
    requires u != [] && v != []
    ensures k < |u| && k < |v| && u[..k] == v[..k]
  {
    if |u| == 1 || |v| == 1 || u[0] != v[0] then 0
    else
      var k := FirstGap(u[1..], v[1..]);
      assert u[..k + 1] == [u[0]] + u[1..][..k] && v[..k + 1] == [v[0]] + v[1..][..k];
      k + 1
  }

  lemma LeadBytes(c: char)
    ensures |EncodeChar(c)| == 1 ==> EncodeChar(c)[0] < 0x80
    ensures |EncodeChar(c)| == 2 ==> 0xC2 <= EncodeChar(c)[0] < 0xE0
    ensures |EncodeChar(c)| == 3 ==> 0xE0 <= EncodeChar(c)[0] < 0xF0
    ensures |EncodeChar(c)| == 4 ==> 0xF0 <= EncodeChar(c)[0]
  {
  }

  lemma Regroup(n: int)
    requires 0 <= n
    ensures n == 64 * (n / 64) + n % 64 && 0 <= n % 64 < 64
    ensures n / 64 == 64 * (n / 64 / 64) + n / 64 % 64 && 0 <= n / 64 % 64 < 64
    ensures n / 64 / 64 == 64 * (n / 64 / 64 / 64) + n / 64 / 64 % 64 && 0 <= n / 64 / 64 % 64 < 64
  {
  }

  /** The encodings of two code points first differ at a byte ordered as the code points are. */
  lemma CharsDiffer(c: char, d: char)
    requires c < d
    ensures var u, v := EncodeChar(c), EncodeChar(d);
            u[FirstGap(u, v)] < v[FirstGap(u, v)]
  {
    LeadBytes(c);
    LeadBytes(d);
    Regroup(c as int);
    Regroup(d as int);
    var u, v := EncodeChar(c), EncodeChar(d);
    if |u| == |v| {
      if |u| == 2 {
        GapOfTwo(u, v);
      } else if |u| == 3 {
        GapOfThree(u, v);
      } else if |u| == 4 {
        GapOfFour(u, v);
      }
    }
  }

  lemma GapOfTwo(u: seq<int>, v: seq<int>)
    requires |u| == |v| == 2
    ensures FirstGap(u, v) == if u[0] != v[0] then 0 else 1
  {
  }

  lemma GapOfThree(u: seq<int>, v: seq<int>)
    requires |u| == |v| == 3
    ensures FirstGap(u, v) == if u[0] != v[0] then 0 else if u[1] != v[1] then 1 else 2
  {
    if u[0] == v[0] {
      GapOfTwo(u[1..], v[1..]);
    }
  }

  lemma GapOfFour(u: seq<int>, v: seq<int>)
    requires |u| == |v| == 4
    ensures FirstGap(u, v) ==
            if u[0] != v[0] then 0 else if u[1] != v[1] then 1 else if u[2] != v[2] then 2 else 3
  {
    if u[0] == v[0] {
      GapOfThree(u[1..], v[1..]);
    }
  }

  /** Where two byte strings first differ decides their order, whatever follows. */
  lemma GapDecides(u: seq<int>, v: seq<int>, k: nat, a: seq<int>, b: seq<int>)
    requires k < |u| && k < |v| && u[..k] == v[..k] && u[k] < v[k]
    ensures Precedes(u + a, v + b) && !Precedes(v + b, u + a)
  {
    assert u + a == u[..k] + [u[k]] + (u[k + 1..] + a);
    assert v + b == u[..k] + [v[k]] + (v[k + 1..] + b);
    FirstDifference(u[..k], u[k], u[k + 1..] + a, v[k], v[k + 1..] + b);
  }

  lemma CharsOrdered(c: char, d: char, a: seq<int>, b: seq<int>)
    requires c < d
    ensures Precedes(EncodeChar(c) + a, EncodeChar(d) + b) && !Precedes(EncodeChar(d) + b, EncodeChar(c) + a)
  {
    CharsDiffer(c, d);
    GapDecides(EncodeChar(c), EncodeChar(d), FirstGap(EncodeChar(c), EncodeChar(d)), a, b);
  }

  /** Text sorts by its UTF-8 bytes exactly as it sorts by its code points. */
  lemma {:induction false} ByteOrderIsCodePointOrder(s: string, t: string)
    ensures BytesPrecede(s, t) <==> CodePointsPrecede(s, t)
  {
    if s != "" && t != "" {
      assert CodePoints(s)[1..] == CodePoints(s[1..]) && CodePoints(t)[1..] == CodePoints(t[1..]);
      if s[0] == t[0] {
        ByteOrderIsCodePointOrder(s[1..], t[1..]);
        CommonPrefix(EncodeChar(s[0]), Encode(s[1..]), Encode(t[1..]));
      } else if s[0] < t[0] {
        CharsOrdered(s[0], t[0], Encode(s[1..]), Encode(t[1..]));
      } else {
        CharsOrdered(t[0], s[0], Encode(t[1..]), Encode(s[1..]));
      }
    }
  }

  lemma {:induction false} CodePointsTotal(s: string, t: string)
    ensures s != t ==> CodePointsPrecede(s, t) || CodePointsPrecede(t, s)
    ensures !(CodePointsPrecede(s, t) && CodePointsPrecede(t, s))
  {
    if s != "" && t != "" {
      assert CodePoints(s)[1..] == CodePoints(s[1..]) && CodePoints(t)[1..] == CodePoints(t[1..]);
      assert s == [s[0]] + s[1..] && t == [t[0]] + t[1..];
      CodePointsTotal(s[1..], t[1..]);
    }
  }

  lemma {:induction false} PrecedesTransitive(a: seq<int>, b: seq<int>, c: seq<int>)
    requires Precedes(a, b) && Precedes(b, c)
    ensures Precedes(a, c)
  {
    if a != [] && a[0] == b[0] == c[0] {
      PrecedesTransitive(a[1..], b[1..], c[1..]);
    }
  }

  /** No two texts share their bytes. */
  lemma EncodeInjective(s: string, t: string)
    requires Encode(s) == Encode(t)
    ensures s == t
  {
    CodePointsTotal(s, t);
    ByteOrderIsCodePointOrder(s, t);
    ByteOrderIsCodePointOrder(t, s);
  }
}
