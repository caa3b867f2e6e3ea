/**
 Canonical text read back by rules of its own: the string and value grammar of
 RFC 8259. Whatever is emitted spells the value it was emitted for, with members in
 key order and strings in their shortest escaped form.
 */
module JsonText {
  import opened Options
  import opened JcsNumber
  import opened KeyOrder
  import opened CanonicalJson

  // ------------------------------------------------------------ reading strings

  /** The value of a hexadecimal digit of either case. */
  function Hexadecimal(c: char): Option<int> {
    if '0' <= c <= '9' then Some(c as int - 0x30)
    else if 'a' <= c <= 'f' then Some(c as int - 0x57)
    else if 'A' <= c <= 'F' then Some(c as int - 0x37)
    else None
  }

  /** The code unit four hexadecimal digits stand for. */
  function CodeUnit(t: string): Option<int>
    requires |t| >= 4
  {
    var a, b, c, d := Hexadecimal(t[0]), Hexadecimal(t[1]), Hexadecimal(t[2]), Hexadecimal(t[3]);
    if a == None || b == None || c == None || d == None then None
    else Some(0x1000 * a.value + 0x100 * b.value + 0x10 * c.value + d.value)
  }

  /** What a backslash and one character stand for, `u` excepted. */
  function Unescaped(c: char): Option<char> {
    match c
    case '"' => Some(0x22 as char)
    case '\\' => Some(0x5C as char)
    case '/' => Some(0x2F as char)
    case 'b' => Some(0x08 as char)
    case 'f' => Some(0x0C as char)
    case 'n' => Some(0x0A as char)
    case 'r' => Some(0x0D as char)
    case 't' => Some(0x09 as char)
    case _ => None
  }

  /** A character, and the text after it. */
  function ReadChar(t: string): (r: Option<(char, string)>)
    ensures r.Some? ==> |r.value.1| < |t|
  {
    if t == "" || t[0] as int < 0x20 || t[0] == '"' then None
    else if t[0] != '\\' then Some((t[0], t[1..]))
    else if |t| < 2 then None
    else if t[1] == 'u' then
      if |t| < 6 then None
      else
        var u := CodeUnit(t[2..6]);
        // A surrogate is no character of its own.
        if u == None || 0xD800 <= u.value < 0xE000 || !(0 <= u.value < 0x1_0000) then None
        else Some((u.value as char, t[6..]))
    else
      var c := Unescaped(t[1]);
      if c == None then None else Some((c.value, t[2..]))
  }

  /** Characters up to the closing quote, and the text after it. */
  function ReadChars(t: string): Option<(string, string)>
    decreases |t|
  {
    if t != "" && t[0] == '"' then Some(("", t[1..]))
    else
      var head := ReadChar(t);
      if head == None then None
      else
        var tail := ReadChars(head.value.1);
        if tail == None then None else Some(([head.value.0] + tail.value.0, tail.value.1))
  }

  function ReadString(t: string): Option<(string, string)> {
    if t == "" || t[0] != '"' then None else ReadChars(t[1..])
  }

  lemma ReadEscape(c: char, rest: string)
    ensures ReadChar(Escape(c) + rest) == Some((c, rest))
    ensures Escape(c)[0] != '"'
  {
    var e := Escape(c);
    var t := e + rest;
    assert t[|e|..] == rest;
    assert forall i :: 0 <= i < |e| ==> t[i] == e[i];
    if |e| == 6 {
      var u := t[2..6];
      assert u[0] == '0' && u[1] == '0' && u[2] == e[4] && u[3] == e[5];
      assert CodeUnit(u) == Some(c as int);
    }
  }

  lemma {:induction false} CharsReadBack(s: string, rest: string)
    ensures ReadChars(EmitChars(s, rest)) == Some((s, rest))
  {
    if s == "" {
      assert EmitChars(s, rest)[1..] == rest;
    } else {
      ReadEscape(s[0], EmitChars(s[1..], rest));
      CharsReadBack(s[1..], rest);
      assert s == [s[0]] + s[1..];
    }
  }

  /** A reader of JSON strings gives back every string, and what follows it. */
  lemma StringReadsBack(s: string, rest: string)
    ensures ReadString(EmitString(s, rest)) == Some((s, rest))
  {
    CharsReadBack(s, rest);
    assert EmitString(s, rest)[1..] == EmitChars(s, rest);
  }

  /** Characters that JSON allows bare stand for themselves. The others take two
      characters where a short escape exists, and otherwise six, in lower case. */
  lemma EscapesAreShortest(c: char)
    ensures var e := Escape(c);
      && (e == [c] <==> c as int >= 0x20 && c != '"' && c != '\\')
      && (|e| == 2 <==> exists d :: Unescaped(d) == Some(c) && c != '/')
      && |e| in {1, 2, 6}
      && forall i :: 0 <= i < |e| && |e| > 1 ==> !('A' <= e[i] <= 'F')
  {
    if |Escape(c)| == 2 {
      assert Unescaped(Escape(c)[1]) == Some(c);
    }
  }

  // ------------------------------------------------------------ spelling values

  /** The texts, separated by commas. */
  function Separated(parts: seq<string>): string {
    if parts == [] then "" else if |parts| == 1 then parts[0] else parts[0] + "," + Separated(parts[1..])
  }

  /** `t` is a JSON text of `v` without white space, with object members in key order. */
  ghost predicate Spelling(t: string, v: Json)
    requires Good(v)
    decreases v, 1
  {
    match v
    case Null => t == "null"
    case Bool(b) => t == if b then "true" else "false"
    case Number(n) => IsNumberText(t) && TextValue(t) == Value(n)
    case Str(s) => ReadString(t) == Some((s, ""))
    case Arr(items) => exists parts :: ItemSpelling(t, items, v, parts)
    case Obj(ms) => exists names, parts :: MemberSpelling(t, ms, v, names, parts)
  }

  ghost predicate ItemSpelling(t: string, items: seq<Json>, v: Json, parts: seq<string>)
    requires Good(v) && v == Arr(items)
    decreases v, 0
  {
    && t == "[" + Separated(parts) + "]" && |parts| == |items|
    && forall i :: 0 <= i < |items| ==> Spelling(parts[i], items[i])
  }

  /** The names are the keys, each earlier than the next; each name with its part spells
      its member. */
  ghost predicate MemberSpelling(t: string, ms: seq<Member>, v: Json, names: seq<string>, parts: seq<string>)
    requires Good(v) && v == Obj(ms)
    decreases v, 0
  {
    && t == "{" + Separated(parts) + "}" && |parts| == |names| == |ms|
    && (forall j :: 0 <= j < |names| ==> names[j] in Keys(ms))
    && (forall i, j :: 0 <= i < j < |names| ==> Before(names[i], names[j]))
    && forall i, j :: 0 <= i < |ms| && 0 <= j < |names| && ms[i].key == names[j] ==>
         PartSpells(parts[j], ms[i])
  }

  /** A quoted key, a colon and the member's value. */
  ghost predicate PartSpells(part: string, m: Member)
    requires Good(m.value)
    decreases m.value, 2
  {
    && ReadString(part).Some? && ReadString(part).value.0 == m.key
    && var after := ReadString(part).value.1;
    && after != "" && after[0] == ':' && Spelling(after[1..], m.value)
  }

  // ------------------------------------------------- the text comes before the rest

  lemma Regroup(a: string, b: string, c: string)
    ensures a + (b + c) == a + b + c
  {
  }

  lemma {:induction false} CharsThenRest(s: string, rest: string)
    ensures EmitChars(s, rest) == EmitChars(s, "") + rest
  {
    if s == "" {
    } else {
      CharsThenRest(s[1..], rest);
    }
  }

  lemma {:induction false} EmitThenRest(v: Json, rest: string)
    requires Good(v)
    ensures Emit(v, rest) == Emit(v, "") + rest
    decreases Size(v), 0
  {
    match v
    case Str(s) => CharsThenRest(s, rest);
    case Arr(items) => ItemsThenRest(items, true, rest);
    case Obj(ms) =>
      SortKeepsMembers(ms);
      MembersThenRest(Sort(ms), true, rest);
    case _ =>
  }

  lemma {:induction false} ItemsThenRest(items: seq<Json>, first: bool, rest: string)
    requires forall i :: 0 <= i < |items| ==> Good(items[i])
    ensures EmitItems(items, first, rest) == EmitItems(items, first, "") + rest
    decreases ItemsSize(items), 1
  {
    if items == [] {
    } else {
      var more := EmitItems(items[1..], false, "");
      ItemsThenRest(items[1..], false, rest);
      EmitThenRest(items[0], more + rest);
      EmitThenRest(items[0], more);
      Regroup(Emit(items[0], ""), more, rest);
      Regroup(if first then "" else ",", Emit(items[0], more), rest);
    }
  }

  lemma {:induction false} MembersThenRest(ms: seq<Member>, first: bool, rest: string)
    requires GoodMembers(ms)
    ensures EmitMembers(ms, first, rest) == EmitMembers(ms, first, "") + rest
    decreases MembersSize(ms), 1
  {
    if ms == [] {
    } else {
      var more := EmitMembers(ms[1..], false, "");
      MembersThenRest(ms[1..], false, rest);
      MemberThenRest(ms[0], more + rest);
      MemberThenRest(ms[0], more);
      Regroup(MemberText(ms[0]), more, rest);
      Regroup(if first then "" else ",", MemberText(ms[0]) + more, rest);
    }
  }

  ghost function MemberText(m: Member): string
    requires Good(m.value)
  {
    EmitString(m.key, [':'] + Emit(m.value, ""))
  }

  lemma {:induction false} MemberThenRest(m: Member, rest: string)
    requires Good(m.value)
    ensures EmitString(m.key, [':'] + Emit(m.value, rest)) == MemberText(m) + rest
    decreases Size(m.value), 1
  {
    EmitThenRest(m.value, rest);
    Regroup([':'], Emit(m.value, ""), rest);
    CharsThenRest(m.key, [':'] + Emit(m.value, rest));
    CharsThenRest(m.key, [':'] + Emit(m.value, ""));
    Regroup(EmitChars(m.key, ""), [':'] + Emit(m.value, ""), rest);
  }

  // --------------------------------------------------------- every part in its place

  /** The comma before parts that follow others. */
  function Lead(parts: seq<string>, first: bool): string {
    if parts == [] || first then "" else ","
  }

  lemma LeadThenMore(t: string, more: seq<string>, first: bool, end: string)
    ensures Lead([t] + more, first) + Separated([t] + more) + end
         == (if first then "" else ",") + (t + (Lead(more, false) + Separated(more) + end))
  {
    var parts := [t] + more;
    assert parts[1..] == more;
  }

  lemma {:induction false} ItemsSeparated(items: seq<Json>, parts: seq<string>, first: bool)
    requires forall i :: 0 <= i < |items| ==> Good(items[i])
    requires |parts| == |items| && forall i :: 0 <= i < |items| ==> parts[i] == Emit(items[i], "")
    ensures EmitItems(items, first, "") == Lead(parts, first) + Separated(parts) + "]"
  {
    if items == [] {
    } else {
      ItemsSeparated(items[1..], parts[1..], false);
      EmitThenRest(items[0], EmitItems(items[1..], false, ""));
      LeadThenMore(parts[0], parts[1..], first, "]");
      assert parts == [parts[0]] + parts[1..];
    }
  }

  lemma {:induction false} MembersSeparated(ms: seq<Member>, parts: seq<string>, first: bool)
    requires GoodMembers(ms)
    requires |parts| == |ms| && forall i :: 0 <= i < |ms| ==> parts[i] == MemberText(ms[i])
    ensures EmitMembers(ms, first, "") == Lead(parts, first) + Separated(parts) + "}"
  {
    if ms == [] {
    } else {
      MembersSeparated(ms[1..], parts[1..], false);
      MemberThenRest(ms[0], EmitMembers(ms[1..], false, ""));
      LeadThenMore(parts[0], parts[1..], first, "}");
      assert parts == [parts[0]] + parts[1..];
    }
  }

  ghost function ItemTexts(items: seq<Json>): (r: seq<string>)
    requires forall i :: 0 <= i < |items| ==> Good(items[i])
    ensures |r| == |items| && forall i :: 0 <= i < |items| ==> r[i] == Emit(items[i], "")
  {
    if items == [] then [] else [Emit(items[0], "")] + ItemTexts(items[1..])
  }

  ghost function MemberTexts(ms: seq<Member>): (r: seq<string>)
    requires GoodMembers(ms)
    ensures |r| == |ms| && forall i :: 0 <= i < |ms| ==> r[i] == MemberText(ms[i])
  {
    if ms == [] then [] else [MemberText(ms[0])] + MemberTexts(ms[1..])
  }

  function Names(ms: seq<Member>): (r: seq<string>)
    ensures |r| == |ms| && forall i :: 0 <= i < |ms| ==> r[i] == ms[i].key
  {
    seq(|ms|, i requires 0 <= i < |ms| => ms[i].key)
  }

  lemma NumberSpells(n: Binary64)
    requires IsBinary64(n) && !n.Unrepresentable?
    ensures Spelling(Emit(Number(n), ""), Number(n))
  {
    SerializeExact(n);
    assert NumberText(n) + "" == NumberText(n);
  }

  lemma ItemsText(items: seq<Json>)
    requires forall i :: 0 <= i < |items| ==> Good(items[i])
    ensures ['['] + EmitItems(items, true, "") == "[" + Separated(ItemTexts(items)) + "]"
  {
    var parts := ItemTexts(items);
    ItemsSeparated(items, parts, true);
    assert Lead(parts, true) + Separated(parts) == Separated(parts);
    Regroup(['['], Separated(parts), "]");
  }

  lemma ItemsSpell(items: seq<Json>)
    requires Good(Arr(items)) && forall i :: 0 <= i < |items| ==> Spelling(Emit(items[i], ""), items[i])
    ensures Spelling(Emit(Arr(items), ""), Arr(items))
  {
    ItemsText(items);
    assert ItemSpelling(Emit(Arr(items), ""), items, Arr(items), ItemTexts(items));
  }

  lemma PartSpellsMember(part: string, m: Member)
    requires Good(m.value) && part == MemberText(m) && Spelling(Emit(m.value, ""), m.value)
    ensures PartSpells(part, m)
  {
    StringReadsBack(m.key, [':'] + Emit(m.value, ""));
  }

  /** Any listing of the members in key order spells them. */
  lemma ListingSpells(ms: seq<Member>, sorted: seq<Member>, parts: seq<string>)
    requires Good(Obj(ms)) && |sorted| == |ms| && Sorted(sorted) && forall m :: m in sorted ==> m in ms
    requires |parts| == |sorted|
    requires forall i, j :: 0 <= i < |ms| && 0 <= j < |sorted| && ms[i] == sorted[j] ==> PartSpells(parts[j], ms[i])
    ensures MemberSpelling("{" + Separated(parts) + "}", ms, Obj(ms), Names(sorted), parts)
  {
    forall i, j | 0 <= i < |ms| && 0 <= j < |sorted| && ms[i].key == sorted[j].key
      ensures ms[i] == sorted[j]
    {
      assert sorted[j] in ms;
      var k :| 0 <= k < |ms| && ms[k] == sorted[j];
      assert k == i;
    }
    forall j | 0 <= j < |sorted|
      ensures sorted[j].key in Keys(ms)
    {
      assert sorted[j] in ms;
    }
  }

  lemma ListingText(sorted: seq<Member>)
    requires GoodMembers(sorted)
    ensures ['{'] + EmitMembers(sorted, true, "") == "{" + Separated(MemberTexts(sorted)) + "}"
  {
    var parts := MemberTexts(sorted);
    MembersSeparated(sorted, parts, true);
    assert Lead(parts, true) + Separated(parts) == Separated(parts);
    Regroup(['{'], Separated(parts), "}");
  }

  /** Each part spells the member it is the text of. */
  lemma TextsSpell(ms: seq<Member>, sorted: seq<Member>)
    requires Good(Obj(ms)) && GoodMembers(sorted)
    requires |sorted| == |ms| && Sorted(sorted) && forall m :: m in sorted ==> m in ms
    requires forall i :: 0 <= i < |ms| ==> PartSpells(MemberText(ms[i]), ms[i])
    ensures Spelling("{" + Separated(MemberTexts(sorted)) + "}", Obj(ms))
  {
    var parts := MemberTexts(sorted);
    ListingSpells(ms, sorted, parts);
    assert MemberSpelling("{" + Separated(parts) + "}", ms, Obj(ms), Names(sorted), parts);
  }

  lemma ObjectSpells(ms: seq<Member>)
    requires Good(Obj(ms)) && GoodMembers(Sort(ms))
    requires forall i :: 0 <= i < |ms| ==> PartSpells(MemberText(ms[i]), ms[i])
    ensures Spelling(Emit(Obj(ms), ""), Obj(ms))
  {
    SortSorts(ms);
    SortKeys(ms);
    ListingText(Sort(ms));
    assert Emit(Obj(ms), "") == ['{'] + EmitMembers(Sort(ms), true, "");
    TextsSpell(ms, Sort(ms));
  }

  lemma {:induction false} EmitSpells(v: Json)
    requires Good(v)
    ensures Spelling(Emit(v, ""), v)
    decreases v
  {
    match v
    case Null =>
    case Bool(_) =>
    case Number(n) => NumberSpells(n);
    case Str(s) => StringReadsBack(s, "");
    case Arr(items) =>
      forall i | 0 <= i < |items|
        ensures Spelling(Emit(items[i], ""), items[i])
      {
        EmitSpells(items[i]);
      }
      ItemsSpell(items);
    case Obj(ms) =>
      SortKeepsMembers(ms);
      forall i | 0 <= i < |ms|
        ensures PartSpells(MemberText(ms[i]), ms[i])
      {
        EmitSpells(ms[i].value);
        PartSpellsMember(MemberText(ms[i]), ms[i]);
      }
      ObjectSpells(ms);
  }

  /** The canonical text of a value spells that value. */
  lemma CanonicalSpells(v: Json)
    requires WellTyped(v) && Accepted(v)
    ensures CanonicalJson.CanonicalJson(v).Canonical? && Spelling(CanonicalJson.CanonicalJson(v).text, v)
  {
    EmitSpells(v);
  }

  // --------------------------------------------------------- what is not accepted

  /** The strings a value holds, as keys or on their own, and its numbers. */
  ghost predicate Holds(v: Json, leaf: Json)
    decreases v
  {
    match v
    case Arr(items) => exists i :: 0 <= i < |items| && Holds(items[i], leaf)
    case Obj(ms) => exists i :: 0 <= i < |ms| && (leaf == Str(ms[i].key) || Holds(ms[i].value, leaf))
    case _ => leaf == v
  }

  /** The noncharacters: the last two code points of each plane, and a block of 32. */
  ghost predicate Noncharacter(c: char) {
    var code := c as int;
    0xFDD0 <= code < 0xFDF0 || exists plane :: 0 <= plane <= 16 && LastTwo(plane, code)
  }

  ghost predicate LastTwo(plane: int, code: int) {
    0x1_0000 * plane + 0xFFFE <= code <= 0x1_0000 * plane + 0xFFFF
  }

  ghost predicate Bad(leaf: Json) {
    match leaf
    case Number(n) => n == Unrepresentable
    case Str(s) => exists i :: 0 <= i < |s| && Noncharacter(s[i])
    case _ => false
  }

  lemma NoncharacterIff(c: char)
    ensures Noncharacter(c) <==> !IJsonChar(c)
  {
    var code := c as int;
    if !IJsonChar(c) && !(0xFDD0 <= code < 0xFDF0) {
      var plane := code / 0x1_0000;
      assert LastTwo(plane, code);
    }
  }

  lemma BadStringIff(s: string)
    ensures Bad(Str(s)) <==> !IJsonString(s)
  {
    forall i | 0 <= i < |s|
      ensures Noncharacter(s[i]) <==> !IJsonChar(s[i])
    {
      NoncharacterIff(s[i]);
    }
  }

  /** A value is refused exactly when it holds a number binary64 cannot represent, or a
      string, be it a key, with a noncharacter. */
  lemma {:induction false} RefusedIff(v: Json)
    ensures !Accepted(v) <==> exists leaf :: Holds(v, leaf) && Bad(leaf)
    decreases v
  {
    match v
    case Str(s) => BadStringIff(s);
    case Arr(items) =>
      forall i | 0 <= i < |items|
        ensures !Accepted(items[i]) <==> exists leaf :: Holds(items[i], leaf) && Bad(leaf)
      {
        RefusedIff(items[i]);
      }
      if i :| 0 <= i < |items| && !Accepted(items[i]) {
        var leaf :| Holds(items[i], leaf) && Bad(leaf);
        assert Holds(v, leaf);
      }
    case Obj(ms) =>
      forall i | 0 <= i < |ms|
        ensures !IJsonString(ms[i].key) <==> Bad(Str(ms[i].key))
        ensures !Accepted(ms[i].value) <==> exists leaf :: Holds(ms[i].value, leaf) && Bad(leaf)
      {
        BadStringIff(ms[i].key);
        RefusedIff(ms[i].value);
      }
      if i :| 0 <= i < |ms| && !Accepted(ms[i].value) {
        var leaf :| Holds(ms[i].value, leaf) && Bad(leaf);
        assert Holds(v, leaf);
      }
      if i :| 0 <= i < |ms| && !IJsonString(ms[i].key) {
        assert Holds(v, Str(ms[i].key));
      }
    case _ =>
      assert Holds(v, v);
  }
}
