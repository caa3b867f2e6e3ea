/**
 Object members are ordered by the big-endian UTF-16 encoding of their keys
 (RFC 8785, section 3.2.3), not by code point. This order is strict and total
 because the encoding is injective.
 */
module KeyOrder {

  type Bytes = seq<int>

  /** The two bytes of one UTF-16 code unit. */
  function UnitBytes(u: int): (b: Bytes)
    ensures |b| == 2
  {
    [u / 0x100, u % 0x100]
  }

  /** One scalar value: a code unit, or a surrogate pair above U+FFFF. */
  function CharBytes(c: char): (b: Bytes)
    ensures b != []
  {
    var code := c as int;
    if code < 0x1_0000 then UnitBytes(code)
    else UnitBytes(0xD800 + (code - 0x1_0000) / 0x400) + UnitBytes(0xDC00 + (code - 0x1_0000) % 0x400)
  }

  function Utf16(s: string): Bytes {
    if s == "" then [] else CharBytes(s[0]) + Utf16(s[1..])
  }

  predicate LexLess(a: Bytes, b: Bytes) {
    b != [] && (a == [] || a[0] < b[0] || (a[0] == b[0] && LexLess(a[1..], b[1..])))
  }

  /** The order in which keys are emitted. */
  predicate Before(a: string, b: string) {
    LexLess(Utf16(a), Utf16(b))
  }

  /** The first code unit says whether a pair follows; the code units give back the character. */
  lemma CharUnique(c: char, d: char, x: Bytes, y: Bytes)
    requires CharBytes(c) + x == CharBytes(d) + y
    ensures c == d && x == y
  {
    var p, q := CharBytes(c), CharBytes(d);
    var s, t := p + x, q + y;
    assert s[0] == p[0] && s[1] == p[1] && t[0] == q[0] && t[1] == q[1];
    var u, v := 0x100 * s[0] + s[1], 0x100 * t[0] + t[1];
    assert (c as int >= 0x1_0000) == (0xD800 <= u < 0xDC00);
    assert (d as int >= 0x1_0000) == (0xD800 <= v < 0xDC00);
    if c as int >= 0x1_0000 {
      assert s[2] == p[2] && s[3] == p[3] && t[2] == q[2] && t[3] == q[3];
      assert 0x100 * p[2] + p[3] == 0xDC00 + (c as int - 0x1_0000) % 0x400;
      assert 0x100 * q[2] + q[3] == 0xDC00 + (d as int - 0x1_0000) % 0x400;
    }
    assert c == d;
    assert x == s[|p|..] && y == t[|q|..];
  }

  lemma {:induction false} Utf16Injective(a: string, b: string)
    requires Utf16(a) == Utf16(b)
    ensures a == b
  {
    if a != "" && b != "" {
      CharUnique(a[0], b[0], Utf16(a[1..]), Utf16(b[1..]));
      Utf16Injective(a[1..], b[1..]);
      assert a == [a[0]] + a[1..] && b == [b[0]] + b[1..];
    }
  }

  lemma {:induction false} LexTotal(a: Bytes, b: Bytes)
    ensures a == b || LexLess(a, b) || LexLess(b, a)
    ensures !(LexLess(a, b) && LexLess(b, a))
  {
    if a != [] && b != [] {
      LexTotal(a[1..], b[1..]);
      assert a == [a[0]] + a[1..] && b == [b[0]] + b[1..];
    }
  }

  lemma {:induction false} LexTransitive(a: Bytes, b: Bytes, c: Bytes)
    requires LexLess(a, b) && LexLess(b, c)
    ensures LexLess(a, c)
  {
    if a != [] && a[0] == b[0] && b[0] == c[0] {
      LexTransitive(a[1..], b[1..], c[1..]);
    }
  }

  /** Any two different keys are ordered, one way only. */
  lemma BeforeTotal(a: string, b: string)
    ensures a == b || Before(a, b) || Before(b, a)
    ensures !(Before(a, b) && Before(b, a))
    ensures !Before(a, a)
  {
    LexTotal(Utf16(a), Utf16(b));
    LexTotal(Utf16(a), Utf16(a));
    if Utf16(a) == Utf16(b) {
      Utf16Injective(a, b);
    }
  }

  lemma BeforeTransitive(a: string, b: string, c: string)
    requires Before(a, b) && Before(b, c)
    ensures Before(a, c)
  {
    LexTransitive(Utf16(a), Utf16(b), Utf16(c));
  }

  /** The order of code units is not the order of code points: a supplementary
      character precedes every character from U+E000 to U+FFFF. */
  lemma NotCodePointOrder(c: char, d: char)
    requires c as int >= 0x1_0000 && 0xE000 <= d as int < 0x1_0000
    ensures d < c && Before([c], [d])
  {
    assert Utf16([c]) == CharBytes(c) + Utf16([c][1..]);
    assert Utf16([d]) == CharBytes(d) + Utf16([d][1..]);
    assert CharBytes(c)[0] < 0xDC < 0xE0 <= CharBytes(d)[0];
  }

  // ------------------------------------------------ the order, character by character

  lemma {:induction false} LexPrefix(x: Bytes, p: Bytes, q: Bytes)
    ensures LexLess(x + p, x + q) <==> LexLess(p, q)
  {
    if x == [] {
      assert x + p == p && x + q == q;
    } else {
      assert (x + p)[1..] == x[1..] + p && (x + q)[1..] == x[1..] + q;
      LexPrefix(x[1..], p, q);
    }
  }

  /** The first different byte decides, whatever follows. */
  lemma LexDiffer(x: Bytes, y: Bytes, p: Bytes, q: Bytes, k: nat)
    requires k < |x| && k < |y| && x[..k] == y[..k] && x[k] != y[k]
    ensures LexLess(x + p, y + q) <==> x[k] < y[k]
  {
    LexPrefix(x[..k], x[k..] + p, y[k..] + q);
    assert x + p == x[..k] + (x[k..] + p) && y + q == y[..k] + (y[k..] + q);
  }

  /** Characters in the order of their code units: those below the surrogates first, then
      the supplementary ones, then the rest of the basic plane. */
  ghost predicate Earlier(c: char, d: char) {
    if c as int >= 0x1_0000 then (d as int >= 0x1_0000 && c < d) || 0xE000 <= d as int < 0x1_0000
    else if d as int >= 0x1_0000 then (c as int) < 0xD800
    else c < d
  }

  lemma UnitsDiffer(c: char, d: char) returns (k: nat)
    requires c != d
    ensures k < |CharBytes(c)| && k < |CharBytes(d)| && CharBytes(c)[..k] == CharBytes(d)[..k]
    ensures CharBytes(c)[k] != CharBytes(d)[k]
    ensures CharBytes(c)[k] < CharBytes(d)[k] <==> Earlier(c, d)
  {
    var x, y := CharBytes(c), CharBytes(d);
    if x[0] != y[0] {
      k := 0;
    } else if x[1] != y[1] {
      k := 1;
    } else if x[2] != y[2] {
      k := 2;
    } else {
      k := 3;
    }
  }

  /** The strings agree up to `k`, and `a` has the earlier character there. */
  ghost predicate EarlierAt(a: string, b: string, k: int) {
    0 <= k < |a| && k < |b| && a[..k] == b[..k] && Earlier(a[k], b[k])
  }

  /** Keys are in order exactly when one is a proper prefix of the other, or has the
      earlier character at the first difference. */
  lemma {:induction false} BeforeIff(a: string, b: string)
    ensures Before(a, b) <==> a < b || exists k :: EarlierAt(a, b, k)
  {
    if a != "" && b != "" {
      if a[0] == b[0] {
        LexPrefix(CharBytes(a[0]), Utf16(a[1..]), Utf16(b[1..]));
        BeforeIff(a[1..], b[1..]);
        DropFirst(a, b);
      } else {
        var k := UnitsDiffer(a[0], b[0]);
        LexDiffer(CharBytes(a[0]), CharBytes(b[0]), Utf16(a[1..]), Utf16(b[1..]), k);
        if Earlier(a[0], b[0]) {
          assert EarlierAt(a, b, 0);
        }
        assert forall k :: EarlierAt(a, b, k) ==> k == 0;
      }
    }
  }

  lemma DropFirst(a: string, b: string)
    requires a != "" && b != "" && a[0] == b[0]
    ensures a < b <==> a[1..] < b[1..]
    ensures (exists k :: EarlierAt(a, b, k)) <==> exists k :: EarlierAt(a[1..], b[1..], k)
  {
    var s, t := a[1..], b[1..];
    assert a == [a[0]] + s && b == [b[0]] + t;
    assert a < b <==> s < t;
    forall k | EarlierAt(a, b, k)
      ensures EarlierAt(s, t, k - 1)
    {
      assert s[..k - 1] == a[..k][1..] && t[..k - 1] == b[..k][1..];
      assert !Earlier(b[0], b[0]);
    }
    forall k | EarlierAt(s, t, k)
      ensures EarlierAt(a, b, k + 1)
    {
      assert a[..k + 1] == [a[0]] + s[..k] && b[..k + 1] == [b[0]] + t[..k];
    }
  }
}
