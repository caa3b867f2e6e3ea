/**
 The canonical text of a JSON value: RFC 8785 over the I-JSON data model.

 A value that cannot be canonicalized is rejected. Otherwise two values have the
 same text exactly when they are the same value: numbers compare by value, objects
 by content whatever their insertion order, everything else structurally.
 */
module CanonicalJson {
  import opened JcsNumber
  import opened KeyOrder

  /** A JSON value as the host holds it; object members keep insertion order. */
  datatype Json =
    | Null
    | Bool(b: bool)
    | Number(n: Binary64)
    | Str(s: string)
    | Arr(items: seq<Json>)
    | Obj(members: seq<Member>)

  datatype Member = Member(key: string, value: Json)

  // -------------------------------------------------------- the data model

  ghost function Keys(ms: seq<Member>): set<string> {
    set m | m in ms :: m.key
  }

  predicate DistinctKeys(ms: seq<Member>) {
    forall i, j :: 0 <= i < j < |ms| ==> ms[i].key != ms[j].key
  }

  /** What the host's types guarantee: dictionary keys are distinct, and every
      number is either a shortest decimal or flagged as unrepresentable. */
  predicate WellTyped(v: Json) {
    match v
    case Number(n) => IsBinary64(n)
    case Arr(items) => forall i :: 0 <= i < |items| ==> WellTyped(items[i])
    case Obj(ms) => DistinctKeys(ms) && forall i :: 0 <= i < |ms| ==> WellTyped(ms[i].value)
    case _ => true
  }

  /** Unicode noncharacters are outside I-JSON; surrogates cannot occur in `char`. */
  predicate IJsonChar(c: char) {
    var code := c as int;
    !(0xFDD0 <= code <= 0xFDEF) && code % 0x1_0000 != 0xFFFE && code % 0x1_0000 != 0xFFFF
  }

  predicate IJsonString(s: string) {
    forall i :: 0 <= i < |s| ==> IJsonChar(s[i])
  }

  /** The values canonicalization accepts. */
  predicate Accepted(v: Json) {
    match v
    case Number(n) => !n.Unrepresentable?
    case Str(s) => IJsonString(s)
    case Arr(items) => forall i :: 0 <= i < |items| ==> Accepted(items[i])
    case Obj(ms) => forall i :: 0 <= i < |ms| ==> IJsonString(ms[i].key) && Accepted(ms[i].value)
    case _ => true
  }

  ghost predicate Good(v: Json) {
    WellTyped(v) && Accepted(v)
  }

  /** Sameness of JSON values. */
  ghost predicate Same(v: Json, w: Json)
    requires Good(v) && Good(w)
    decreases v
  {
    match (v, w)
    case (Number(m), Number(n)) => Value(m) == Value(n)
    case (Arr(a), Arr(b)) =>
      |a| == |b| && forall i :: 0 <= i < |a| ==> Same(a[i], b[i])
    case (Obj(a), Obj(b)) =>
      && Keys(a) == Keys(b)
      && forall i, j :: 0 <= i < |a| && 0 <= j < |b| && a[i].key == b[j].key ==> Same(a[i].value, b[j].value)
    case _ => v == w
  }

  // ------------------------------------------------------------- strings

  function HexDigit(d: int): char
    requires 0 <= d < 16
  {
    if d < 10 then ('0' as int + d) as char else ('a' as int + (d - 10)) as char
  }

  /** ECMAScript escaping of one character. */
  function Escape(c: char): (u: string)
    ensures u != ""
  {
    match c
    case '\U{8}' => "\\b"
    case '\t' => "\\t"
    case '\n' => "\\n"
    case '\U{C}' => "\\f"
    case '\r' => "\\r"
    case '"' => "\\\""
    case '\\' => "\\\\"
    case _ =>
      if c as int <= 0x1F then ['\\', 'u', '0', '0', HexDigit(c as int / 16), HexDigit(c as int % 16)]
      else [c]
  }

  /** Escaped characters, the closing quote, then `rest`. */
  function EmitChars(s: string, rest: string): string {
    if s == "" then ['"'] + rest else Escape(s[0]) + EmitChars(s[1..], rest)
  }

  function EmitString(s: string, rest: string): string {
    ['"'] + EmitChars(s, rest)
  }

  // --------------------------------------------------------------- sorting

  predicate Sorted(ms: seq<Member>) {
    forall i, j :: 0 <= i < j < |ms| ==> Before(ms[i].key, ms[j].key)
  }

  function Insert(m: Member, ms: seq<Member>): (r: seq<Member>)
    ensures multiset(r) == multiset([m] + ms)
    ensures MembersSize(r) == MembersSize([m] + ms)
  {
    if ms == [] || Before(m.key, ms[0].key) then [m] + ms
    else
      var rest := Insert(m, ms[1..]);
      assert ms == [ms[0]] + ms[1..];
      assert ([m] + ms[1..])[1..] == ms[1..];
      assert ([m] + ms)[1..] == ms;
      assert ([ms[0]] + rest)[1..] == rest;
      [ms[0]] + rest
  }

  /** Members in emission order. */
  function Sort(ms: seq<Member>): (r: seq<Member>)
    ensures multiset(r) == multiset(ms)
    ensures MembersSize(r) == MembersSize(ms)
  {
    if ms == [] then []
    else
      assert ms == [ms[0]] + ms[1..];
      var rest := Sort(ms[1..]);
      assert ([ms[0]] + rest)[1..] == rest;
      Insert(ms[0], rest)
  }

  // -------------------------------------------------------------- printing

  function Size(v: Json): nat {
    match v
    case Arr(items) => 1 + ItemsSize(items)
    case Obj(ms) => 1 + MembersSize(ms)
    case _ => 0
  }

  function ItemsSize(items: seq<Json>): nat {
    if items == [] then 0 else 1 + Size(items[0]) + ItemsSize(items[1..])
  }

  function MembersSize(ms: seq<Member>): nat {
    if ms == [] then 0 else 1 + Size(ms[0].value) + MembersSize(ms[1..])
  }

  function NumberText(n: Binary64): string
    requires IsBinary64(n) && !n.Unrepresentable?
  {
    SerializeExact(n);
    Serialize(n).text
  }

  /** The canonical text of `v`, then `rest`. */
  function Emit(v: Json, rest: string): string
    requires Good(v)
    decreases Size(v), 0
  {
    match v
    case Null => "null" + rest
    case Bool(b) => (if b then "true" else "false") + rest
    case Number(n) => NumberText(n) + rest
    case Str(s) => EmitString(s, rest)
    case Arr(items) => ['['] + EmitItems(items, true, rest)
    case Obj(ms) =>
      SortKeepsMembers(ms);
      ['{'] + EmitMembers(Sort(ms), true, rest)
  }

  /** Comma-separated items and the closing bracket. */
  function EmitItems(items: seq<Json>, first: bool, rest: string): string
    requires forall i :: 0 <= i < |items| ==> Good(items[i])
    decreases ItemsSize(items), 1
  {
    if items == [] then [']'] + rest
    else (if first then "" else ",") + Emit(items[0], EmitItems(items[1..], false, rest))
  }

  ghost predicate GoodMembers(ms: seq<Member>) {
    forall i :: 0 <= i < |ms| ==> IJsonString(ms[i].key) && Good(ms[i].value)
  }

  /** Comma-separated members and the closing brace. */
  function EmitMembers(ms: seq<Member>, first: bool, rest: string): string
    requires GoodMembers(ms)
    decreases MembersSize(ms), 1
  {
    if ms == [] then ['}'] + rest
    else
      (if first then "" else ",")
      + EmitString(ms[0].key, [':'] + Emit(ms[0].value, EmitMembers(ms[1..], false, rest)))
  }

  datatype Canonical = Canonical(text: string) | NotCanonical

  function CanonicalJson(v: Json): Canonical
    requires WellTyped(v)
  {
    if Accepted(v) then Canonical(Emit(v, "")) else NotCanonical
  }

  lemma SortKeepsMembers(ms: seq<Member>)
    requires Good(Obj(ms))
    ensures GoodMembers(Sort(ms))
  {
    forall i | 0 <= i < |Sort(ms)|
      ensures IJsonString(Sort(ms)[i].key) && Good(Sort(ms)[i].value)
    {
      assert Sort(ms)[i] in multiset(Sort(ms));
      assert Sort(ms)[i] in ms;
    }
  }

  // ------------------------------------------- the text determines the value

  /** Characters a number may contain. */
  predicate IsNumberChar(c: char) {
    IsDigit(c) || c == '-' || c == '+' || c == '.' || c == 'e'
  }

  predicate NumberChars(s: string) {
    forall i :: 0 <= i < |s| ==> IsNumberChar(s[i])
  }

  /** What may follow a value: nothing, or a separator or closing bracket. */
  predicate Stop(rest: string) {
    rest == "" || rest[0] == ',' || rest[0] == ']' || rest[0] == '}'
  }

  lemma {:induction false} DigitsAreNumberChars(s: string)
    requires AllDigits(s)
    ensures NumberChars(s)
  {
    if s != "" {
      DigitsAreNumberChars(s[..|s| - 1]);
      assert s == s[..|s| - 1] + [s[|s| - 1]];
    }
  }

  lemma {:induction false} ZerosAreNumberChars(n: nat)
    ensures NumberChars(Zeros(n))
  {
    if n == 0 {
    } else {
      ZerosAreNumberChars(n - 1);
    }
  }

  lemma CharsConcat(a: string, b: string)
    requires NumberChars(a) && NumberChars(b)
    ensures NumberChars(a + b)
  {}

  lemma ExponentChars(k: int)
    ensures NumberChars("e" + SignedDecimal(k))
  {
    var exponent := Decimal(if k >= 0 then k else -k);
    DigitsAreNumberChars(exponent);
    CharsConcat(if k >= 0 then "+" else "-", exponent);
    CharsConcat("e", SignedDecimal(k));
  }

  lemma PointChars(whole: string, fraction: string)
    requires NumberChars(whole) && NumberChars(fraction)
    ensures NumberChars(whole + "." + fraction)
  {
    CharsConcat(whole, ".");
    CharsConcat(whole + ".", fraction);
  }

  lemma MantissaChars(digits: string)
    requires NumberChars(digits) && digits != ""
    ensures NumberChars([digits[0]] + if |digits| > 1 then "." + digits[1..] else "")
  {
    var fraction := if |digits| > 1 then "." + digits[1..] else "";
    if |digits| > 1 {
      CharsConcat(".", digits[1..]);
    }
    CharsConcat([digits[0]], fraction);
  }

  lemma ExponentialChars(digits: string, position: int)
    requires NumberChars(digits) && digits != ""
    ensures NumberChars(
              [digits[0]] + (if |digits| > 1 then "." + digits[1..] else "") + ("e" + SignedDecimal(position - 1)))
  {
    MantissaChars(digits);
    ExponentChars(position - 1);
    CharsConcat([digits[0]] + if |digits| > 1 then "." + digits[1..] else "", "e" + SignedDecimal(position - 1));
  }

  lemma FixedChars(digits: string, position: int)
    requires NumberChars(digits) && digits != "" && -6 < position <= 21
    ensures NumberChars(Format(digits, position))
  {
    if position <= 0 {
      ZerosAreNumberChars(-position);
      CharsConcat(Zeros(-position), digits);
      CharsConcat("0.", Zeros(-position) + digits);
    } else if position >= |digits| {
      ZerosAreNumberChars(position - |digits|);
      CharsConcat(digits, Zeros(position - |digits|));
    } else {
      PointChars(digits[..position], digits[position..]);
    }
  }

  lemma FormatChars(digits: string, position: int)
    requires Normal(digits)
    ensures NumberChars(Format(digits, position))
  {
    DigitsAreNumberChars(digits);
    if -6 < position <= 21 {
      FixedChars(digits, position);
    } else {
      ExponentialChars(digits, position);
    }
  }

  lemma NumberTextChars(n: Binary64)
    requires IsBinary64(n) && !n.Unrepresentable?
    ensures NumberChars(NumberText(n)) && NumberText(n) != ""
  {
    SerializeExact(n);
    if n.Finite? {
      SignificandNormal(n.shortest);
      FormatChars(Significand(n.shortest).0, Significand(n.shortest).1);
    }
  }

  lemma CharAt(s: string, t: string, x: string, y: string)
    requires s + x == t + y && |s| < |t|
    ensures x != "" && x[0] == t[|s|]
  {
    assert (s + x)[|s|] == x[0];
  }

  /** A run of number characters ends where the rest begins. */
  lemma RunsEnd(s: string, t: string, x: string, y: string)
    requires NumberChars(s) && NumberChars(t) && Stop(x) && Stop(y)
    requires s + x == t + y
    ensures s == t && x == y
  {
    if |s| < |t| {
      CharAt(s, t, x, y);
    } else if |t| < |s| {
      CharAt(t, s, y, x);
    } else {
      var u := s + x;
      assert s == u[..|s|] && t == u[..|t|];
      assert x == u[|s|..] && y == u[|t|..];
    }
  }

  lemma HexUnique(d: int, e: int)
    requires 0 <= d < 16 && 0 <= e < 16 && HexDigit(d) == HexDigit(e)
    ensures d == e
  {}

  lemma EscapeUnique(c: char, d: char, x: string, y: string)
    requires Escape(c) + x == Escape(d) + y
    ensures c == d && x == y
  {
    var p, q := Escape(c), Escape(d);
    var u := p + x;
    assert u[0] == p[0] == q[0];
    if |p| > 1 && |q| > 1 {
      assert u[1] == p[1] == q[1];
      if |p| > 2 && |q| > 2 {
        assert u[4] == p[4] == q[4] && u[5] == p[5] == q[5];
        HexUnique(c as int / 16, d as int / 16);
        HexUnique(c as int % 16, d as int % 16);
      }
    }
    assert c == d;
    assert x == u[|p|..] && y == u[|q|..];
  }

  lemma CharsHead(s: string, rest: string)
    ensures EmitChars(s, rest) != ""
    ensures s == "" <==> EmitChars(s, rest)[0] == '"'
  {}

  lemma {:induction false} CharsUnique(s: string, t: string, x: string, y: string)
    requires EmitChars(s, x) == EmitChars(t, y)
    ensures s == t && x == y
  {
    CharsHead(s, x);
    CharsHead(t, y);
    if s == "" {
      assert x == EmitChars(s, x)[1..] && y == EmitChars(t, y)[1..];
    } else {
      EscapeUnique(s[0], t[0], EmitChars(s[1..], x), EmitChars(t[1..], y));
      CharsUnique(s[1..], t[1..], x, y);
      assert s == [s[0]] + s[1..] && t == [t[0]] + t[1..];
    }
  }

  lemma StringUnique(s: string, t: string, x: string, y: string)
    requires EmitString(s, x) == EmitString(t, y)
    ensures s == t && x == y
  {
    assert EmitChars(s, x) == EmitString(s, x)[1..] && EmitChars(t, y) == EmitString(t, y)[1..];
    CharsUnique(s, t, x, y);
  }

  /** The first character tells the kinds of value apart. */
  ghost predicate Starts(v: Json, c: char)
    requires Good(v)
  {
    match v
    case Null => c == 'n'
    case Bool(b) => c == if b then 't' else 'f'
    case Number(n) => IsNumberChar(c) && c != 'e'
    case Str(_) => c == '"'
    case Arr(_) => c == '['
    case Obj(_) => c == '{'
  }

  lemma EmitStarts(v: Json, rest: string)
    requires Good(v)
    ensures Emit(v, rest) != "" && Starts(v, Emit(v, rest)[0])
  {
    match v
    case Number(n) =>
      NumberTextChars(n);
      SerializeExact(n);
      if n.Finite? {
        SignificandNormal(n.shortest);
        FormatStart(Significand(n.shortest).0, Significand(n.shortest).1);
      }
    case _ =>
  }

  lemma ItemsHead(items: seq<Json>, first: bool, rest: string)
    requires forall i :: 0 <= i < |items| ==> Good(items[i])
    ensures EmitItems(items, first, rest) != ""
    ensures !first ==> Stop(EmitItems(items, first, rest))
    ensures items == [] <==> EmitItems(items, first, rest)[0] == ']'
  {
    if items != [] {
      EmitStarts(items[0], EmitItems(items[1..], false, rest));
    }
  }

  lemma MembersHead(ms: seq<Member>, first: bool, rest: string)
    requires GoodMembers(ms)
    ensures EmitMembers(ms, first, rest) != ""
    ensures !first ==> Stop(EmitMembers(ms, first, rest))
    ensures ms == [] <==> EmitMembers(ms, first, rest)[0] == '}'
  {}

  /** The separator before an element, and the text after it. */
  lemma DropSeparator(first: bool, s: string, t: string)
    requires (if first then "" else ",") + s == (if first then "" else ",") + t
    ensures s == t
  {
    var k := if first then 0 else 1;
    assert ((if first then "" else ",") + s)[k..] == s;
    assert ((if first then "" else ",") + t)[k..] == t;
  }

  /** Pairwise the same key and value. */
  ghost predicate Aligned(a: seq<Member>, b: seq<Member>)
    requires GoodMembers(a) && GoodMembers(b)
  {
    |a| == |b| && forall i :: 0 <= i < |a| ==> a[i].key == b[i].key && Same(a[i].value, b[i].value)
  }

  /** Unique readability: values and continuations are determined by the text. */
  lemma {:induction false} EmitUnique(v: Json, w: Json, x: string, y: string)
    requires Good(v) && Good(w) && Stop(x) && Stop(y)
    requires Emit(v, x) == Emit(w, y)
    ensures Same(v, w) && x == y
    decreases Size(v), 0
  {
    EmitStarts(v, x);
    EmitStarts(w, y);
    match v
    case Null =>
      assert x == Emit(v, x)[4..] && y == Emit(w, y)[4..];
    case Bool(b) =>
      var n := if b then 4 else 5;
      assert x == Emit(v, x)[n..] && y == Emit(w, y)[n..];
    case Number(n) =>
      NumberTextChars(n);
      NumberTextChars(w.n);
      RunsEnd(NumberText(n), NumberText(w.n), x, y);
      SerializeExact(n);
      SerializeExact(w.n);
    case Str(s) =>
      StringUnique(s, w.s, x, y);
    case Arr(items) =>
      var p, q := EmitItems(items, true, x), EmitItems(w.items, true, y);
      assert p == Emit(v, x)[1..] && q == Emit(w, y)[1..];
      ItemsUnique(items, w.items, true, x, y);
    case Obj(ms) =>
      SortKeepsMembers(ms);
      SortKeepsMembers(w.members);
      var p, q := EmitMembers(Sort(ms), true, x), EmitMembers(Sort(w.members), true, y);
      assert p == Emit(v, x)[1..] && q == Emit(w, y)[1..];
      MembersUnique(Sort(ms), Sort(w.members), true, x, y);
      AlignedIffSame(ms, w.members);
  }

  lemma {:induction false} ItemsUnique(a: seq<Json>, b: seq<Json>, first: bool, x: string, y: string)
    requires forall i :: 0 <= i < |a| ==> Good(a[i])
    requires forall i :: 0 <= i < |b| ==> Good(b[i])
    requires EmitItems(a, first, x) == EmitItems(b, first, y)
    ensures |a| == |b| && forall i :: 0 <= i < |a| ==> Same(a[i], b[i])
    ensures x == y
    decreases ItemsSize(a), 1
  {
    ItemsHead(a, first, x);
    ItemsHead(b, first, y);
    if a == [] {
      assert x == EmitItems(a, first, x)[1..] && y == EmitItems(b, first, y)[1..];
    } else {
      var p, q := EmitItems(a[1..], false, x), EmitItems(b[1..], false, y);
      ItemsHead(a[1..], false, x);
      ItemsHead(b[1..], false, y);
      DropSeparator(first, Emit(a[0], p), Emit(b[0], q));
      EmitUnique(a[0], b[0], p, q);
      ItemsUnique(a[1..], b[1..], false, x, y);
      forall i | 0 <= i < |a|
        ensures Same(a[i], b[i])
      {
        if i > 0 { assert a[i] == a[1..][i - 1] && b[i] == b[1..][i - 1]; }
      }
    }
  }

  lemma {:induction false} MembersUnique(a: seq<Member>, b: seq<Member>, first: bool, x: string, y: string)
    requires GoodMembers(a) && GoodMembers(b)
    requires EmitMembers(a, first, x) == EmitMembers(b, first, y)
    ensures Aligned(a, b) && x == y
    decreases MembersSize(a), 1
  {
    MembersHead(a, first, x);
    MembersHead(b, first, y);
    if a == [] {
      assert x == EmitMembers(a, first, x)[1..] && y == EmitMembers(b, first, y)[1..];
    } else {
      var p, q := EmitMembers(a[1..], false, x), EmitMembers(b[1..], false, y);
      MembersHead(a[1..], false, x);
      MembersHead(b[1..], false, y);
      var s, t := [':'] + Emit(a[0].value, p), [':'] + Emit(b[0].value, q);
      DropSeparator(first, EmitString(a[0].key, s), EmitString(b[0].key, t));
      StringUnique(a[0].key, b[0].key, s, t);
      assert Emit(a[0].value, p) == s[1..] && Emit(b[0].value, q) == t[1..];
      EmitUnique(a[0].value, b[0].value, p, q);
      MembersUnique(a[1..], b[1..], false, x, y);
      forall i | 0 <= i < |a|
        ensures a[i].key == b[i].key && Same(a[i].value, b[i].value)
      {
        if i > 0 { assert a[i] == a[1..][i - 1] && b[i] == b[1..][i - 1]; }
      }
    }
  }

  // --------------------------------------------- the value determines the text

  lemma {:induction false} InsertSorts(m: Member, ms: seq<Member>)
    requires Sorted(ms) && forall i :: 0 <= i < |ms| ==> ms[i].key != m.key
    ensures Sorted(Insert(m, ms))
  {
    if ms == [] {
    } else {
      BeforeTotal(m.key, ms[0].key);
      if Before(m.key, ms[0].key) {
        forall i | 0 <= i < |ms|
          ensures Before(m.key, ms[i].key)
        {
          if i > 0 { BeforeTransitive(m.key, ms[0].key, ms[i].key); }
        }
      } else {
        InsertSorts(m, ms[1..]);
        var rest := Insert(m, ms[1..]);
        forall i | 0 <= i < |rest|
          ensures Before(ms[0].key, rest[i].key)
        {
          assert rest[i] in multiset(rest);
          assert rest[i] == m || rest[i] in ms[1..];
        }
      }
    }
  }

  lemma {:induction false} SortSorts(ms: seq<Member>)
    requires DistinctKeys(ms)
    ensures Sorted(Sort(ms))
  {
    if ms == [] {
    } else {
      SortSorts(ms[1..]);
      var rest := Sort(ms[1..]);
      forall i | 0 <= i < |rest|
        ensures rest[i].key != ms[0].key
      {
        assert rest[i] in multiset(rest);
        assert rest[i] in ms[1..];
      }
      InsertSorts(ms[0], rest);
    }
  }

  lemma SortKeys(ms: seq<Member>)
    ensures Keys(Sort(ms)) == Keys(ms)
    ensures |Sort(ms)| == |ms|
    ensures forall m :: m in Sort(ms) <==> m in ms
  {
    forall m
      ensures m in Sort(ms) <==> m in ms
    {
      assert m in Sort(ms) <==> m in multiset(Sort(ms));
      assert m in ms <==> m in multiset(ms);
    }
    assert |multiset(Sort(ms))| == |multiset(ms)|;
  }

  /** Sorted members with one key set are listed in one key order. */
  lemma {:induction false} SortedKeysAlign(a: seq<Member>, b: seq<Member>)
    requires Sorted(a) && Sorted(b) && Keys(a) == Keys(b)
    ensures |a| == |b| && forall i :: 0 <= i < |a| ==> a[i].key == b[i].key
  {
    NoKeys(a);
    NoKeys(b);
    if a == [] {
    } else {
      FirstKey(a, b);
      TailKeys(a);
      TailKeys(b);
      SortedKeysAlign(a[1..], b[1..]);
      assert forall i :: 1 <= i < |a| ==> a[i] == a[1..][i - 1] && b[i] == b[1..][i - 1];
    }
  }

  lemma NoKeys(ms: seq<Member>)
    ensures Keys(ms) == {} <==> ms == []
  {
    if ms != [] {
      assert ms[0].key in Keys(ms);
    }
  }

  lemma FirstKey(a: seq<Member>, b: seq<Member>)
    requires a != [] && b != [] && Sorted(a) && Sorted(b) && Keys(a) == Keys(b)
    ensures a[0].key == b[0].key
  {
    assert a[0].key in Keys(b) && b[0].key in Keys(a);
    var i :| 0 <= i < |b| && b[i].key == a[0].key;
    var j :| 0 <= j < |a| && a[j].key == b[0].key;
    if i != 0 && j != 0 {
      BeforeTotal(a[0].key, b[0].key);
    }
  }

  lemma TailKeys(a: seq<Member>)
    requires a != [] && Sorted(a)
    ensures Keys(a[1..]) == Keys(a) - {a[0].key}
  {
    BeforeTotal(a[0].key, a[0].key);
    forall k
      ensures k in Keys(a[1..]) <==> k in Keys(a) - {a[0].key}
    {
      if k in Keys(a) - {a[0].key} {
        var i :| 0 <= i < |a| && a[i].key == k;
        assert a[1..][i - 1].key == k;
      }
      if k in Keys(a[1..]) {
        var i :| 0 <= i < |a[1..]| && a[1..][i].key == k;
        assert Before(a[0].key, a[i + 1].key);
        assert a[i + 1] in a;
      }
    }
  }

  lemma AlignedThenSame(p: seq<Member>, q: seq<Member>, m: Member, n: Member)
    requires GoodMembers(p) && GoodMembers(q) && Aligned(p, q) && Sorted(q)
    requires m in p && n in q && m.key == n.key
    ensures Good(m.value) && Good(n.value) && Same(m.value, n.value)
  {
    var k :| 0 <= k < |p| && p[k] == m;
    var l :| 0 <= l < |q| && q[l] == n;
    BeforeTotal(q[k].key, q[l].key);
    assert k == l;
  }

  lemma AlignedThenSameObject(a: seq<Member>, b: seq<Member>, p: seq<Member>, q: seq<Member>)
    requires Good(Obj(a)) && Good(Obj(b))
    requires GoodMembers(p) && GoodMembers(q) && Aligned(p, q) && Sorted(q)
    requires Keys(p) == Keys(a) && Keys(q) == Keys(b)
    requires (forall m :: m in a ==> m in p) && (forall m :: m in b ==> m in q)
    ensures Same(Obj(a), Obj(b))
  {
    AlignedKeys(p, q);
    forall i, j | 0 <= i < |a| && 0 <= j < |b| && a[i].key == b[j].key
      ensures Same(a[i].value, b[j].value)
    {
      assert a[i] in a && b[j] in b;
      AlignedThenSame(p, q, a[i], b[j]);
    }
  }

  /** Objects are the same exactly when their sorted members align. */
  lemma AlignedIffSame(a: seq<Member>, b: seq<Member>)
    requires Good(Obj(a)) && Good(Obj(b))
    requires GoodMembers(Sort(a)) && GoodMembers(Sort(b))
    ensures Aligned(Sort(a), Sort(b)) <==> Same(Obj(a), Obj(b))
  {
    SortSorts(a);
    SortSorts(b);
    SortKeys(a);
    SortKeys(b);
    if Aligned(Sort(a), Sort(b)) {
      AlignedThenSameObject(a, b, Sort(a), Sort(b));
    }
    if Same(Obj(a), Obj(b)) {
      SameThenAligned(a, b, Sort(a), Sort(b));
    }
  }

  lemma SameThenAligned(a: seq<Member>, b: seq<Member>, p: seq<Member>, q: seq<Member>)
    requires Good(Obj(a)) && Good(Obj(b)) && Same(Obj(a), Obj(b))
    requires GoodMembers(p) && GoodMembers(q) && Sorted(p) && Sorted(q)
    requires Keys(p) == Keys(a) && Keys(q) == Keys(b)
    requires (forall m :: m in p ==> m in a) && (forall m :: m in q ==> m in b)
    ensures Aligned(p, q)
  {
    SortedKeysAlign(p, q);
    forall k | 0 <= k < |p|
      ensures Same(p[k].value, q[k].value)
    {
      assert p[k] in a && q[k] in b;
      var i :| 0 <= i < |a| && a[i] == p[k];
      var j :| 0 <= j < |b| && b[j] == q[k];
      assert a[i].key == b[j].key;
    }
  }

  lemma AlignedKeys(p: seq<Member>, q: seq<Member>)
    requires GoodMembers(p) && GoodMembers(q) && Aligned(p, q)
    ensures Keys(p) == Keys(q)
  {
    forall k
      ensures k in Keys(p) <==> k in Keys(q)
    {
      if k in Keys(p) {
        var i :| 0 <= i < |p| && p[i].key == k;
        assert q[i] in q && q[i].key == k;
      }
      if k in Keys(q) {
        var i :| 0 <= i < |q| && q[i].key == k;
        assert p[i] in p && p[i].key == k;
      }
    }
  }

  lemma {:induction false} SameEmits(v: Json, w: Json, rest: string)
    requires Good(v) && Good(w) && Same(v, w)
    ensures Emit(v, rest) == Emit(w, rest)
    decreases Size(v), 0
  {
    match v
    case Number(n) =>
      SameTextIffSameValue(n, w.n);
    case Arr(items) =>
      SameItemsEmit(items, w.items, true, rest);
    case Obj(ms) =>
      SortKeepsMembers(ms);
      SortKeepsMembers(w.members);
      AlignedIffSame(ms, w.members);
      AlignedEmits(Sort(ms), Sort(w.members), true, rest);
    case _ =>
  }

  lemma {:induction false} SameItemsEmit(a: seq<Json>, b: seq<Json>, first: bool, rest: string)
    requires forall i :: 0 <= i < |a| ==> Good(a[i])
    requires forall i :: 0 <= i < |b| ==> Good(b[i])
    requires |a| == |b| && forall i :: 0 <= i < |a| ==> Same(a[i], b[i])
    ensures EmitItems(a, first, rest) == EmitItems(b, first, rest)
    decreases ItemsSize(a), 1
  {
    if a == [] {
    } else {
      SameItemsEmit(a[1..], b[1..], false, rest);
      SameEmits(a[0], b[0], EmitItems(a[1..], false, rest));
    }
  }

  lemma {:induction false} AlignedEmits(a: seq<Member>, b: seq<Member>, first: bool, rest: string)
    requires GoodMembers(a) && GoodMembers(b) && Aligned(a, b)
    ensures EmitMembers(a, first, rest) == EmitMembers(b, first, rest)
    decreases MembersSize(a), 1
  {
    if a == [] {
    } else {
      AlignedEmits(a[1..], b[1..], false, rest);
      SameEmits(a[0].value, b[0].value, EmitMembers(a[1..], false, rest));
    }
  }

  // ------------------------------------------------------------ the theorem

  /** Two accepted values have the same canonical text exactly when they are the
      same value; a value that is not accepted has no canonical text. */
  lemma CanonicalIffSame(v: Json, w: Json)
    requires WellTyped(v) && WellTyped(w)
    ensures CanonicalJson(v).NotCanonical? <==> !Accepted(v)
    ensures Accepted(v) && Accepted(w) ==> (CanonicalJson(v) == CanonicalJson(w) <==> Same(v, w))
  {
    if Accepted(v) && Accepted(w) {
      if CanonicalJson(v) == CanonicalJson(w) {
        EmitUnique(v, w, "", "");
      }
      if Same(v, w) {
        SameEmits(v, w, "");
      }
    }
  }

  lemma {:induction false} SameReflexive(v: Json)
    requires Good(v)
    ensures Same(v, v)
    decreases v
  {
    match v
    case Arr(items) =>
      forall i | 0 <= i < |items|
        ensures Same(items[i], items[i])
      {
        SameReflexive(items[i]);
      }
    case Obj(ms) =>
      forall i, j | 0 <= i < |ms| && 0 <= j < |ms| && ms[i].key == ms[j].key
        ensures Same(ms[i].value, ms[j].value)
      {
        assert i == j;
        SameReflexive(ms[i].value);
      }
    case _ =>
  }

  /** Insertion order does not matter: two dictionaries with the same members have
      the same canonical text, or neither has one. */
  lemma InsertionOrderIrrelevant(a: seq<Member>, b: seq<Member>)
    requires WellTyped(Obj(a)) && WellTyped(Obj(b))
    requires forall m :: m in a <==> m in b
    ensures CanonicalJson(Obj(a)) == CanonicalJson(Obj(b))
  {
    if Accepted(Obj(a)) { AcceptedMembers(a, b); }
    if Accepted(Obj(b)) { AcceptedMembers(b, a); }
    if Accepted(Obj(a)) {
      assert Keys(a) == Keys(b);
      forall i, j | 0 <= i < |a| && 0 <= j < |b| && a[i].key == b[j].key
        ensures Same(a[i].value, b[j].value)
      {
        assert a[i] in b;
        var k :| 0 <= k < |b| && b[k] == a[i];
        assert k == j;
        SameReflexive(a[i].value);
      }
      CanonicalIffSame(Obj(a), Obj(b));
    }
  }

  lemma AcceptedMembers(a: seq<Member>, b: seq<Member>)
    requires Accepted(Obj(a)) && forall m :: m in b ==> m in a
    ensures Accepted(Obj(b))
  {
    forall i | 0 <= i < |b|
      ensures IJsonString(b[i].key) && Accepted(b[i].value)
    {
      assert b[i] in a;
    }
  }

  // --------------------------------------------------- escaping, as it is run

  /** Builds the quoted text piece by piece. */
  method QuoteString(value: string) returns (r: Canonical)
    ensures r.NotCanonical? <==> !IJsonString(value)
    ensures r.Canonical? ==> r.text == EmitString(value, "")
  {
    if !IJsonString(value) {
      return NotCanonical;
    }
    var encoded := "";
    var i := 0;
    while i < |value|
      invariant 0 <= i <= |value|
      invariant forall rest :: EmitChars(value, rest) == encoded + EmitChars(value[i..], rest)
    {
      var unit := Escape(value[i]);
      forall rest
        ensures EmitChars(value, rest) == (encoded + unit) + EmitChars(value[i + 1..], rest)
      {
        assert value[i..][1..] == value[i + 1..];
        Associative(encoded, unit, EmitChars(value[i + 1..], rest));
      }
      encoded := encoded + unit;
      i := i + 1;
    }
    assert EmitChars(value, "") == encoded + ("\"" + "");
    r := Canonical("\"" + (encoded + "\""));
  }
}
