/** Names a parser would call the same, beside names the scanner does: what it can miss, and that it invents nothing. */
module DuplicateNames {
  import opened Wrappers
  import opened Duplicates

  // ------------------------------------------------------------------
  // Unescaping (section 7 of RFC 8259)
  // ------------------------------------------------------------------

  function HexValue(c: char): Option<nat> {
    if '0' <= c <= '9' then Some(c as nat - '0' as nat)
    else if 'a' <= c <= 'f' then Some(c as nat - 'a' as nat + 10)
    else if 'A' <= c <= 'F' then Some(c as nat - 'A' as nat + 10)
    else None
  }

  /** The code unit of `\uXXXX` at the start of `s`. */
  function CodeUnit(s: string): (unit: Option<nat>)
    ensures unit.Some? ==> |s| >= 6 && unit.value < 0x10000
  {
    if |s| < 6 || s[0] != '\\' || s[1] != 'u' then None
    else match (HexValue(s[2]), HexValue(s[3]), HexValue(s[4]), HexValue(s[5]))
      case (Some(a), Some(b), Some(c), Some(d)) =>
        if a < 16 && b < 16 && c < 16 && d < 16 then Some(4096 * a + 256 * b + 16 * c + d) else None
      case _ => None
  }

  predicate IsSurrogatePair(high: nat, low: nat) {
    0xD800 <= high < 0xDC00 && 0xDC00 <= low < 0xE000
  }

  /** The bytes of a code point in UTF-8; a lone surrogate is given the three bytes its number would have. */
  function Utf8(point: nat): string
    requires point < 0x110000
  {
    if point < 0x80 then [point as char]
    else if point < 0x800 then [(0xC0 + point / 64) as char, (0x80 + point % 64) as char]
    else if point < 0x10000 then
      [(0xE0 + point / 4096) as char, (0x80 + point / 64 % 64) as char, (0x80 + point % 64) as char]
    else
      [(0xF0 + point / 262144) as char, (0x80 + point / 4096 % 64) as char,
       (0x80 + point / 64 % 64) as char, (0x80 + point % 64) as char]
  }

  function ShortEscape(c: char): Option<char> {
    if c == '"' || c == '\\' || c == '/' then Some(c)
    else if c == 'b' then Some(8 as char)
    else if c == 'f' then Some(12 as char)
    else if c == 'n' then Some(10 as char)
    else if c == 'r' then Some(13 as char)
    else if c == 't' then Some(9 as char)
    else None
  }

  /** The text a raw string stands for; an escape that is none of JSON's is left as written. */
  function Unescaped(raw: string): string {
    if raw == [] then []
    else if raw[0] != '\\' then raw[..1] + Unescaped(raw[1..])
    else if CodeUnit(raw).Some? then
      var unit, next := CodeUnit(raw).value, CodeUnit(raw[6..]);
      if next.Some? && IsSurrogatePair(unit, next.value)
      then Utf8(0x10000 + 1024 * (unit - 0xD800) + (next.value - 0xDC00)) + Unescaped(raw[12..])
      else Utf8(unit) + Unescaped(raw[6..])
    else if |raw| >= 2 && ShortEscape(raw[1]).Some? then [ShortEscape(raw[1]).value] + Unescaped(raw[2..])
    else raw[..1] + Unescaped(raw[1..])
  }

  lemma {:induction false} UnescapedAsWritten(raw: string)
    requires '\\' !in raw
    ensures Unescaped(raw) == raw
  {
    if raw != [] {
      UnescapedAsWritten(raw[1..]);
      assert raw == raw[..1] + raw[1..];
    }
  }

  // ------------------------------------------------------------------
  // Names read alike
  // ------------------------------------------------------------------

  /** How a parser reads the raw text of a name, escapes and all. */
  type Reading = string -> string

  /** Some object, at some depth, has two members that read the same. */
  predicate Repeats(v: Value, read: Reading)
    decreases v
  {
    match v
    case Literal(_) => false
    case Text(_) => false
    case Array(elements, _) => exists k | 0 <= k < |elements| :: Repeats(elements[k].value, read)
    case Object(members, _) =>
      || (exists i, j | 0 <= i < j < |members| :: read(members[i].name) == read(members[j].name))
      || (exists k | 0 <= k < |members| :: Repeats(members[k].value, read))
  }

  predicate SharesName(members: seq<Member>, read: Reading) {
    exists i, j | 0 <= i < j < |members| ::
      members[i].name != members[j].name && read(members[i].name) == read(members[j].name)
  }

  /** Some object, at some depth, has two members spelled differently that read the same. */
  predicate HasAlias(v: Value, read: Reading)
    decreases v
  {
    match v
    case Literal(_) => false
    case Text(_) => false
    case Array(elements, _) => exists k | 0 <= k < |elements| :: HasAlias(elements[k].value, read)
    case Object(members, _) =>
      || SharesName(members, read)
      || (exists k | 0 <= k < |members| :: HasAlias(members[k].value, read))
  }

  /** No member name, at any depth, holds a backslash. */
  predicate IsEscapeFree(v: Value)
    decreases v
  {
    match v
    case Literal(_) => true
    case Text(_) => true
    case Array(elements, _) => forall k | 0 <= k < |elements| :: IsEscapeFree(elements[k].value)
    case Object(members, _) =>
      && (forall k | 0 <= k < |members| :: '\\' !in members[k].name)
      && (forall k | 0 <= k < |members| :: IsEscapeFree(members[k].value))
  }

  /** Whatever the parser, a name spelled twice is a name read twice. */
  lemma {:induction false} SpelledTwiceIsReadTwice(v: Value, read: Reading)
    requires HasDuplicate(v)
    ensures Repeats(v, read)
    decreases v
  {
    match v
    case Literal(_) =>
    case Text(_) =>
    case Array(elements, _) =>
      var k :| 0 <= k < |elements| && HasDuplicate(elements[k].value);
      SpelledTwiceIsReadTwice(elements[k].value, read);
    case Object(members, _) =>
      if RepeatsName(members) {
        var i, j :| 0 <= i < j < |members| && members[i].name == members[j].name;
        assert read(members[i].name) == read(members[j].name);
      } else {
        var k :| 0 <= k < |members| && HasDuplicate(members[k].value);
        SpelledTwiceIsReadTwice(members[k].value, read);
      }
  }

  lemma {:induction false} AliasIsReadTwice(v: Value, read: Reading)
    requires HasAlias(v, read)
    ensures Repeats(v, read)
    decreases v
  {
    match v
    case Literal(_) =>
    case Text(_) =>
    case Array(elements, _) =>
      var k :| 0 <= k < |elements| && HasAlias(elements[k].value, read);
      AliasIsReadTwice(elements[k].value, read);
    case Object(members, _) =>
      if !SharesName(members, read) {
        var k :| 0 <= k < |members| && HasAlias(members[k].value, read);
        AliasIsReadTwice(members[k].value, read);
      }
  }

  lemma {:induction false} ReadTwiceIsSpelledTwiceOrAlias(v: Value, read: Reading)
    requires Repeats(v, read)
    ensures HasDuplicate(v) || HasAlias(v, read)
    decreases v
  {
    match v
    case Literal(_) =>
    case Text(_) =>
    case Array(elements, _) =>
      var k :| 0 <= k < |elements| && Repeats(elements[k].value, read);
      ReadTwiceIsSpelledTwiceOrAlias(elements[k].value, read);
    case Object(members, _) =>
      if i, j :| 0 <= i < j < |members| && read(members[i].name) == read(members[j].name) {
        assert RepeatsName(members) || SharesName(members, read);
      } else {
        var k :| 0 <= k < |members| && Repeats(members[k].value, read);
        ReadTwiceIsSpelledTwiceOrAlias(members[k].value, read);
      }
  }

  lemma {:induction false} EscapeFreeHasNoAlias(v: Value)
    requires IsEscapeFree(v)
    ensures !HasAlias(v, Unescaped)
    decreases v
  {
    match v
    case Literal(_) =>
    case Text(_) =>
    case Array(elements, _) =>
      forall k | 0 <= k < |elements| ensures !HasAlias(elements[k].value, Unescaped) {
        EscapeFreeHasNoAlias(elements[k].value);
      }
    case Object(members, _) =>
      forall k | 0 <= k < |members| ensures !HasAlias(members[k].value, Unescaped) {
        EscapeFreeHasNoAlias(members[k].value);
      }
      forall k | 0 <= k < |members| ensures Unescaped(members[k].name) == members[k].name {
        UnescapedAsWritten(members[k].name);
      }
  }

  // ------------------------------------------------------------------
  // Scanner and parser
  // ------------------------------------------------------------------

  predicate Found(v: Value) {
    Scan(Print(v, []), [])
  }

  lemma FoundIsSpelledTwice(v: Value)
    requires IsJson(v)
    ensures Found(v) <==> HasDuplicate(v)
  {
    ScannerIsExact([], v, []);
    assert [] + Print(v, []) == Print(v, []);
  }

  /** The scanner never invents a duplicate, however a parser reads names. */
  lemma ScannerInventsNothing(v: Value, read: Reading)
    requires IsJson(v) && Found(v)
    ensures Repeats(v, read)
  {
    FoundIsSpelledTwice(v);
    SpelledTwiceIsReadTwice(v, read);
  }

  function TwoMembers(a: string, b: string): Value {
    Object([Member([], a, [], [], Literal("0"), []), Member([], b, [], [], Literal("0"), [])], [])
  }

  lemma TwoMembersMissed(a: string, b: string, read: Reading)
    requires IsRawText(a) && IsRawText(b) && a != b && read(a) == read(b)
    ensures IsJson(TwoMembers(a, b)) && Repeats(TwoMembers(a, b), read) && !Found(TwoMembers(a, b))
  {
    var v := TwoMembers(a, b);
    assert forall k | 0 <= k < |v.members| :: IsMember(v.members[k]);
    FoundIsSpelledTwice(v);
    assert read(v.members[0].name) == read(v.members[1].name);
  }

  /**
   Document by document: scanner and parser differ exactly when no object repeats a
   spelling but some object has two differently spelled names that unescape alike.
   */
  lemma ScannerDiffersExactlyWhen(v: Value)
    requires IsJson(v)
    ensures Found(v) != Repeats(v, Unescaped) <==> !HasDuplicate(v) && HasAlias(v, Unescaped)
  {
    FoundIsSpelledTwice(v);
    if HasDuplicate(v) {
      SpelledTwiceIsReadTwice(v, Unescaped);
    }
    if HasAlias(v, Unescaped) {
      AliasIsReadTwice(v, Unescaped);
    }
    if Repeats(v, Unescaped) {
      ReadTwiceIsSpelledTwiceOrAlias(v, Unescaped);
    }
  }

  /** They agree on every text in which no member name holds a backslash. */
  lemma ScannerAgreesWithoutEscapes(v: Value)
    requires IsJson(v) && IsEscapeFree(v)
    ensures Found(v) <==> Repeats(v, Unescaped)
  {
    EscapeFreeHasNoAlias(v);
    ScannerDiffersExactlyWhen(v);
  }

  /** `{"a":0,"\u0061":0}` repeats its member; the scanner passes it. */
  lemma EscapedNameIsMissed()
    ensures var v := TwoMembers("a", "\\u0061"); IsJson(v) && Repeats(v, Unescaped) && !Found(v)
  {
    assert "\\u0061"[2..] == "0061" && "0061"[1..] == "061" && "061"[1..] == "61" && "61"[1..] == "1" && "1"[1..] == "";
    assert IsRawText("1") && IsRawText("61") && IsRawText("061") && IsRawText("0061");
    assert "a"[1..] == "";
    UnescapedAsWritten("a");
    assert CodeUnit("\\u0061") == Some(97) && "\\u0061"[6..] == "";
    assert Unescaped("\\u0061") == Utf8(97) + Unescaped("");
    assert Utf8(97) == "a";
    TwoMembersMissed("a", "\\u0061", Unescaped);
  }
}
