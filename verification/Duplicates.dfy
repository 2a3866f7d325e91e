/**
 The duplicate-member scanner of document.rs.

 A text is a sequence of bytes, each written as the character with that code,
 which is how the scanner itself turns a byte into a character. The methods are
 the scanner's own index loops; `Scan` states what they compute on the rest of
 the text, and the lemmas say what that means for every JSON text (sections 2, 4
 and 7 of RFC 8259).
 */
module Duplicates {
  import opened Wrappers

  type Names = set<string>

  predicate IsAsciiWhitespace(c: char) {
    c == ' ' || c == '\t' || c == '\n' || c == '\r' || c == 12 as char
  }

  // ------------------------------------------------------------------
  // The scanner's meaning on the rest of a text
  // ------------------------------------------------------------------

  type Taken = Option<(string, string)>

  function Prefixed(out: string, taken: Taken): Taken {
    match taken
    case None => None
    case Some((text, rest)) => Some((out + text, rest))
  }

  lemma PrefixedTwice(out: string, more: string, taken: Taken)
    ensures Prefixed(out, Prefixed(more, taken)) == Prefixed(out + more, taken)
  {
    if taken.Some? {
      assert out + (more + taken.value.0) == out + more + taken.value.0;
    }
  }

  /** The raw text up to the closing quote of an open string, and what follows it. */
  function TakeString(s: string): (taken: Taken)
    ensures taken.Some? ==> s == taken.value.0 + ['"'] + taken.value.1
  {
    if s == [] then None
    else if s[0] == '"' then Some(([], s[1..]))
    else if s[0] == '\\' then
      if |s| < 2 then None else Prefixed(s[..2], TakeString(s[2..]))
    else Prefixed(s[..1], TakeString(s[1..]))
  }

  /** `TakeString` at an index: what it adds for the one or two bytes there. */
  lemma TakeStringAt(b: string, i: nat, out: string)
    requires i < |b| && b[i] != '"'
    ensures b[i] == '\\' && i + 1 == |b| ==> TakeString(b[i..]) == None
    ensures b[i] == '\\' && i + 1 < |b| ==>
              Prefixed(out, TakeString(b[i..])) == Prefixed(out + [b[i]] + [b[i + 1]], TakeString(b[i + 2..]))
    ensures b[i] != '\\' ==>
              Prefixed(out, TakeString(b[i..])) == Prefixed(out + [b[i]], TakeString(b[i + 1..]))
  {
    if b[i] != '\\' {
      assert b[i..][1..] == b[i + 1..] && b[i..][..1] == [b[i]];
      PrefixedTwice(out, [b[i]], TakeString(b[i + 1..]));
    } else if i + 1 < |b| {
      assert b[i..][2..] == b[i + 2..] && b[i..][..2] == [b[i]] + [b[i + 1]];
      PrefixedTwice(out, [b[i]] + [b[i + 1]], TakeString(b[i + 2..]));
      assert out + ([b[i]] + [b[i + 1]]) == out + [b[i]] + [b[i + 1]];
    }
  }

  lemma TakeStringEnds(b: string, i: nat, out: string)
    requires i <= |b|
    ensures i == |b| ==> TakeString(b[i..]) == None
    ensures i < |b| && b[i] == '"' ==> Prefixed(out, TakeString(b[i..])) == Some((out, b[i + 1..]))
  {
    if i < |b| && b[i] == '"' {
      assert b[i..][1..] == b[i + 1..] && out + [] == out;
    }
  }

  /** Is the next non-whitespace byte a colon? */
  predicate ColonNext(s: string) {
    s != [] && (s[0] == ':' || (IsAsciiWhitespace(s[0]) && ColonNext(s[1..])))
  }

  function Pop<T>(stack: seq<T>): seq<T> {
    if stack == [] then [] else stack[..|stack| - 1]
  }

  /** Is a string here a member name, that is: is an object open and does a colon follow? */
  predicate IsName(rest: string, stack: seq<Option<Names>>) {
    ColonNext(rest) && stack != [] && stack[|stack| - 1].Some?
  }

  function AddName(stack: seq<Option<Names>>, name: string): seq<Option<Names>>
    requires stack != [] && stack[|stack| - 1].Some?
  {
    stack[|stack| - 1 := Some(stack[|stack| - 1].value + {name})]
  }

  predicate Scan(s: string, stack: seq<Option<Names>>)
    decreases |s|
  {
    if s == [] then false
    else if s[0] == '{' then Scan(s[1..], stack + [Some({})])
    else if s[0] == '[' then Scan(s[1..], stack + [None])
    else if s[0] == '}' || s[0] == ']' then Scan(s[1..], Pop(stack))
    else if s[0] == '"' then
      match TakeString(s[1..])
      case None => false
      case Some((name, rest)) =>
        if !IsName(rest, stack) then Scan(rest, stack)
        else name in stack[|stack| - 1].value || Scan(rest, AddName(stack, name))
    else Scan(s[1..], stack)
  }

  // ------------------------------------------------------------------
  // The scanner
  // ------------------------------------------------------------------

  method ScanJsonString(b: string, start: nat) returns (r: Option<(string, nat)>)
    requires start < |b| && b[start] == '"'
    ensures r.None? <==> TakeString(b[start + 1..]).None?
    ensures r.Some? ==> start < r.value.1 <= |b|
                        && TakeString(b[start + 1..]) == Some((r.value.0, b[r.value.1..]))
  {
    hide TakeString;
    var out: string := [];
    var i := start + 1;
    assert TakeString(b[i..]) == Prefixed(out, TakeString(b[i..])) by {
      if TakeString(b[i..]).Some? {
        assert [] + TakeString(b[i..]).value.0 == TakeString(b[i..]).value.0;
      }
    }
    while i < |b|
      invariant start + 1 <= i <= |b|
      invariant TakeString(b[start + 1..]) == Prefixed(out, TakeString(b[i..]))
    {
      if b[i] == '"' {
        TakeStringEnds(b, i, out);
        return Some((out, i + 1));
      }
      TakeStringAt(b, i, out);
      if b[i] == '\\' {
        if i + 1 >= |b| {
          return None;
        }
        out := out + [b[i]] + [b[i + 1]];
        i := i + 2;
      } else {
        out := out + [b[i]];
        i := i + 1;
      }
    }
    TakeStringEnds(b, i, out);
    r := None;
  }

  /** Runs in bounds and terminates on arbitrary bytes, and computes `Scan`. */
  method HasDuplicateMemberNames(b: string) returns (found: bool)
    ensures found == Scan(b, [])
  {
    var i := 0;
    var stack: seq<Option<Names>> := [];
    while i < |b|
      invariant i <= |b|
      invariant Scan(b, []) == Scan(b[i..], stack)
    {
      assert b[i..][1..] == b[i + 1..];
      if b[i] == '{' {
        stack := stack + [Some({})];
        i := i + 1;
      } else if b[i] == '[' {
        stack := stack + [None];
        i := i + 1;
      } else if b[i] == '}' || b[i] == ']' {
        stack := Pop(stack);
        i := i + 1;
      } else if b[i] == '"' {
        var scanned := ScanJsonString(b, i);
        if scanned.None? {
          return false;
        }
        var (text, next) := scanned.value;
        var j := next;
        while j < |b| && IsAsciiWhitespace(b[j])
          invariant next <= j <= |b|
          invariant ColonNext(b[next..]) == ColonNext(b[j..])
        {
          assert b[j..][1..] == b[j + 1..];
          j := j + 1;
        }
        if j < |b| && b[j] == ':' {
          if stack != [] && stack[|stack| - 1].Some? {
            var seen := stack[|stack| - 1].value;
            if text in seen {
              return true;
            }
            stack := stack[|stack| - 1 := Some(seen + {text})];
          }
        }
        i := next;
      } else {
        i := i + 1;
      }
    }
    found := false;
  }

  // ------------------------------------------------------------------
  // JSON texts
  // ------------------------------------------------------------------

  /** A JSON value together with the whitespace it was written with. */
  datatype Value =
    | Literal(text: string)
    | Text(raw: string)
    | Array(elements: seq<Element>, pad: string)
    | Object(members: seq<Member>, pad: string)

  datatype Element = Element(before: string, value: Value, after: string)

  datatype Member = Member(before: string, name: string, beforeColon: string,
                           afterColon: string, value: Value, after: string)

  predicate IsJsonWhitespace(s: string) {
    forall k | 0 <= k < |s| :: s[k] == ' ' || s[k] == '\t' || s[k] == '\n' || s[k] == '\r'
  }

  /** No bare quote, and no backslash without a byte to escape. */
  predicate IsRawText(s: string) {
    s == [] || (if s[0] == '\\' then |s| >= 2 && IsRawText(s[2..])
                else s[0] != '"' && IsRawText(s[1..]))
  }

  /** A number, `true`, `false` or `null`; all that matters is what it does not contain. */
  predicate IsLiteralText(s: string) {
    forall k | 0 <= k < |s| ::
      s[k] != '{' && s[k] != '}' && s[k] != '[' && s[k] != ']' && s[k] != '"'
  }

  predicate IsJson(v: Value)
    decreases v, 1
  {
    match v
    case Literal(text) => IsLiteralText(text)
    case Text(raw) => IsRawText(raw)
    case Array(elements, pad) =>
      IsJsonWhitespace(pad) && forall k | 0 <= k < |elements| :: IsElement(elements[k])
    case Object(members, pad) =>
      IsJsonWhitespace(pad) && forall k | 0 <= k < |members| :: IsMember(members[k])
  }

  predicate IsElement(e: Element)
    decreases e, 0
  {
    IsJsonWhitespace(e.before) && IsJson(e.value) && IsJsonWhitespace(e.after)
  }

  predicate IsMember(m: Member)
    decreases m, 0
  {
    && IsJsonWhitespace(m.before) && IsRawText(m.name) && IsJsonWhitespace(m.beforeColon)
    && IsJsonWhitespace(m.afterColon) && IsJson(m.value) && IsJsonWhitespace(m.after)
  }

  /** The text of a value, printed in front of `rest`. */
  function Print(v: Value, rest: string): string
    decreases v, 1
  {
    match v
    case Literal(text) => text + rest
    case Text(raw) => Quote(raw, rest)
    case Array(elements, pad) => ['['] + PrintElements(elements, pad + ([']'] + rest))
    case Object(members, pad) => ['{'] + PrintMembers(members, pad + (['}'] + rest))
  }

  function Quote(raw: string, rest: string): string {
    ['"'] + (raw + (['"'] + rest))
  }

  function PrintElements(elements: seq<Element>, rest: string): string
    decreases elements, 0
  {
    if elements == [] then rest
    else
      var e := elements[0];
      e.before + Print(e.value, e.after + (Comma(elements) + PrintElements(elements[1..], rest)))
  }

  function PrintMembers(members: seq<Member>, rest: string): string
    decreases members, 0
  {
    if members == [] then rest
    else
      var m := members[0];
      m.before + Quote(m.name, m.beforeColon + ([':'] + (m.afterColon
        + Print(m.value, m.after + (Comma(members) + PrintMembers(members[1..], rest))))))
  }

  function Comma<T>(items: seq<T>): string {
    if |items| == 1 then [] else [',']
  }

  /** Some object, at some depth, has two members spelled the same. */
  predicate HasDuplicate(v: Value)
    decreases v
  {
    match v
    case Literal(_) => false
    case Text(_) => false
    case Array(elements, _) => exists k | 0 <= k < |elements| :: HasDuplicate(elements[k].value)
    case Object(members, _) =>
      || RepeatsName(members)
      || (exists k | 0 <= k < |members| :: HasDuplicate(members[k].value))
  }

  predicate RepeatsName(members: seq<Member>) {
    exists i, j | 0 <= i < j < |members| :: members[i].name == members[j].name
  }

  // ------------------------------------------------------------------
  // The scanner on JSON texts
  // ------------------------------------------------------------------

  lemma {:induction false} ScanSkips(plain: string, rest: string, stack: seq<Option<Names>>)
    requires IsLiteralText(plain)
    ensures Scan(plain + rest, stack) == Scan(rest, stack)
  {
    if plain == [] {
      assert plain + rest == rest;
    } else {
      assert (plain + rest)[0] == plain[0] && (plain + rest)[1..] == plain[1..] + rest;
      ScanSkips(plain[1..], rest, stack);
    }
  }

  lemma {:induction false} TakesRawText(raw: string, rest: string)
    requires IsRawText(raw)
    ensures TakeString(raw + (['"'] + rest)) == Some((raw, rest))
  {
    var s := raw + (['"'] + rest);
    if raw == [] {
      assert s == ['"'] + rest && s[1..] == rest;
    } else if raw[0] == '\\' {
      assert s[2..] == raw[2..] + (['"'] + rest) && s[..2] + raw[2..] == raw;
      TakesRawText(raw[2..], rest);
    } else {
      assert s[1..] == raw[1..] + (['"'] + rest) && s[..1] + raw[1..] == raw;
      TakesRawText(raw[1..], rest);
    }
  }

  lemma {:induction false} ColonNextSkips(pad: string, rest: string)
    requires IsJsonWhitespace(pad)
    ensures ColonNext(pad + rest) == ColonNext(rest)
  {
    if pad == [] {
      assert pad + rest == rest;
    } else {
      assert (pad + rest)[0] == pad[0] && (pad + rest)[1..] == pad[1..] + rest;
      ColonNextSkips(pad[1..], rest);
    }
  }

  lemma ScanQuoted(raw: string, rest: string, stack: seq<Option<Names>>)
    requires IsRawText(raw)
    ensures Scan(Quote(raw, rest), stack) ==
            if !IsName(rest, stack) then Scan(rest, stack)
            else raw in stack[|stack| - 1].value || Scan(rest, AddName(stack, raw))
  {
    assert Quote(raw, rest)[1..] == raw + (['"'] + rest);
    TakesRawText(raw, rest);
  }

  /** What follows a value, up to the next value or the closing bracket, makes no name of it. */
  lemma SeparatorIsNoColon<T>(after: string, items: seq<T>, pad: string, close: char, rest: string, later: string)
    requires IsJsonWhitespace(after) && IsJsonWhitespace(pad) && items != []
    requires close == ']' || close == '}'
    requires |items| == 1 ==> later == pad + ([close] + rest)
    ensures !ColonNext(after + (Comma(items) + later))
  {
    ColonNextSkips(after, Comma(items) + later);
    if |items| == 1 {
      assert Comma(items) + later == later;
      ColonNextSkips(pad, [close] + rest);
    }
  }

  predicate AnyDuplicate(elements: seq<Element>) {
    exists k | 0 <= k < |elements| :: HasDuplicate(elements[k].value)
  }

  lemma AnyDuplicateStep(elements: seq<Element>)
    requires elements != []
    ensures AnyDuplicate(elements) <==> HasDuplicate(elements[0].value) || AnyDuplicate(elements[1..])
  {
  }

  lemma {:induction false} ScanElements(elements: seq<Element>, pad: string, rest: string, stack: seq<Option<Names>>)
    requires IsJson(Array(elements, pad))
    ensures Scan(PrintElements(elements, pad + ([']'] + rest)), stack + [None])
            == (AnyDuplicate(elements) || Scan(rest, stack))
    decreases elements, 0
  {
    if elements == [] {
      ScanSkips(pad, [']'] + rest, stack + [None]);
      assert ([']'] + rest)[1..] == rest && Pop(stack + [None]) == stack;
    } else {
      var e := elements[0];
      var later := PrintElements(elements[1..], pad + ([']'] + rest));
      var next := e.after + (Comma(elements) + later);
      ScanSkips(e.before, Print(e.value, next), stack + [None]);
      SeparatorIsNoColon(e.after, elements, pad, ']', rest, later);
      assert IsElement(e);
      ScanValue(e.value, next, stack + [None]);
      ScanSkips(e.after, Comma(elements) + later, stack + [None]);
      ScanSkips(Comma(elements), later, stack + [None]);
      ScanElements(elements[1..], pad, rest, stack);
      AnyDuplicateStep(elements);
    }
  }

  /** Member by member: a name already seen, or a duplicate inside the value. */
  predicate DuplicateAmong(members: seq<Member>, seen: Names) {
    members != []
    && (|| members[0].name in seen
        || HasDuplicate(members[0].value)
        || DuplicateAmong(members[1..], seen + {members[0].name}))
  }

  predicate NameIn(members: seq<Member>, seen: Names) {
    exists k | 0 <= k < |members| :: members[k].name in seen
  }

  predicate ValueHasDuplicate(members: seq<Member>) {
    exists k | 0 <= k < |members| :: HasDuplicate(members[k].value)
  }

  lemma NamesStep(members: seq<Member>, seen: Names)
    requires members != []
    ensures NameIn(members, seen) || RepeatsName(members) <==>
            || members[0].name in seen
            || NameIn(members[1..], seen + {members[0].name})
            || RepeatsName(members[1..])
  {
  }

  lemma ValuesStep(members: seq<Member>)
    requires members != []
    ensures ValueHasDuplicate(members) <==> HasDuplicate(members[0].value) || ValueHasDuplicate(members[1..])
  {
  }

  lemma {:induction false} DuplicateAmongMeaning(members: seq<Member>, seen: Names)
    ensures DuplicateAmong(members, seen) <==>
            NameIn(members, seen) || RepeatsName(members) || ValueHasDuplicate(members)
  {
    if members != [] {
      NamesStep(members, seen);
      ValuesStep(members);
      DuplicateAmongMeaning(members[1..], seen + {members[0].name});
    }
  }

  /** A member's name is looked up among those seen, and added if it is new. */
  lemma ScanMemberName(m: Member, text: string, stack: seq<Option<Names>>, seen: Names)
    requires IsMember(m)
    ensures var colon := [':'] + (m.afterColon + text);
            Scan(m.before + Quote(m.name, m.beforeColon + colon), stack + [Some(seen)])
            == (m.name in seen || Scan(text, stack + [Some(seen + {m.name})]))
  {
    var colon, now := [':'] + (m.afterColon + text), seen + {m.name};
    ScanSkips(m.before, Quote(m.name, m.beforeColon + colon), stack + [Some(seen)]);
    ColonNextSkips(m.beforeColon, colon);
    ScanQuoted(m.name, m.beforeColon + colon, stack + [Some(seen)]);
    if m.name !in seen {
      assert AddName(stack + [Some(seen)], m.name) == stack + [Some(now)];
      ScanSkips(m.beforeColon, colon, stack + [Some(now)]);
      ScanSkips([':'], m.afterColon + text, stack + [Some(now)]);
      ScanSkips(m.afterColon, text, stack + [Some(now)]);
    }
  }

  lemma {:induction false} ScanMembers(members: seq<Member>, pad: string, rest: string,
                                       stack: seq<Option<Names>>, seen: Names)
    requires IsJson(Object(members, pad))
    ensures Scan(PrintMembers(members, pad + (['}'] + rest)), stack + [Some(seen)])
            == (DuplicateAmong(members, seen) || Scan(rest, stack))
    decreases members, 0
  {
    if members == [] {
      ScanSkips(pad, ['}'] + rest, stack + [Some(seen)]);
      assert (['}'] + rest)[1..] == rest && Pop(stack + [Some(seen)]) == stack;
    } else {
      var m := members[0];
      var later := PrintMembers(members[1..], pad + (['}'] + rest));
      var next := m.after + (Comma(members) + later);
      assert IsMember(m);
      ScanMemberName(m, Print(m.value, next), stack, seen);
      if m.name !in seen {
        var now := seen + {m.name};
        SeparatorIsNoColon(m.after, members, pad, '}', rest, later);
        ScanValue(m.value, next, stack + [Some(now)]);
        ScanSkips(m.after, Comma(members) + later, stack + [Some(now)]);
        ScanSkips(Comma(members), later, stack + [Some(now)]);
        ScanMembers(members[1..], pad, rest, stack, now);
      }
    }
  }

  /** Scanning past a value reports exactly the duplicates inside it, whatever is already open. */
  lemma {:induction false} ScanValue(v: Value, rest: string, stack: seq<Option<Names>>)
    requires IsJson(v) && !ColonNext(rest)
    ensures Scan(Print(v, rest), stack) == (HasDuplicate(v) || Scan(rest, stack))
    decreases v, 1
  {
    match v
    case Literal(text) =>
      ScanSkips(text, rest, stack);
    case Text(raw) =>
      ScanQuoted(raw, rest, stack);
    case Array(elements, pad) =>
      assert Print(v, rest)[1..] == PrintElements(elements, pad + ([']'] + rest));
      ScanElements(elements, pad, rest, stack);
    case Object(members, pad) =>
      assert Print(v, rest)[1..] == PrintMembers(members, pad + (['}'] + rest));
      ScanMembers(members, pad, rest, stack, {});
      DuplicateAmongMeaning(members, {});
  }

  /** The scanner fires on a JSON text iff some object in it repeats a member name. */
  lemma ScannerIsExact(before: string, v: Value, after: string)
    requires IsJson(v) && IsJsonWhitespace(before) && IsJsonWhitespace(after)
    ensures Scan(before + Print(v, after), []) <==> HasDuplicate(v)
  {
    ScanSkips(before, Print(v, after), []);
    assert after + [] == after;
    ColonNextSkips(after, []);
    ScanValue(v, after, []);
    ScanSkips(after, [], []);
  }
}
