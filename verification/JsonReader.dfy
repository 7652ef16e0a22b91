/**
 A reader of JSON texts without white space (RFC 8259), and the proof that it reads back what the audit
 chain hashes (`canonicalJson` in src/modules/audit/audit.chain.service.ts). An escaped surrogate is
 refused; the printer never writes one.
 */
module JsonReader {
  import opened CanonicalJson
  import opened Outcomes

  // ---- Strings ------------------------------------------------------------------------

  function HexValue(c: char): Option<nat> {
    if '0' <= c <= '9' then Some((c - '0') as nat)
    else if 'a' <= c <= 'f' then Some((c - 'a') as nat + 10)
    else if 'A' <= c <= 'F' then Some((c - 'A') as nat + 10)
    else None
  }

  /** Four hexadecimal digits. */
  function ReadHex(s: string): (r: Option<nat>)
    requires |s| == 4
    ensures r.Some? ==> r.value < 0x1_0000
  {
    match (HexValue(s[0]), HexValue(s[1]), HexValue(s[2]), HexValue(s[3]))
    case (Some(a), Some(b), Some(c), Some(d)) => DigitsFit(a, b, c, d); Some(((a * 16 + b) * 16 + c) * 16 + d)
    case _ => None
  }

  lemma DigitsFit(a: nat, b: nat, c: nat, d: nat)
    ensures a < 16 && b < 16 && c < 16 && d < 16 ==> ((a * 16 + b) * 16 + c) * 16 + d < 0x1_0000
  {
  }

  /** The character that an escape stands for; `s` starts after the backslash. */
  function ReadEscape(s: string): (r: Option<(char, string)>)
    ensures r.Some? ==> |r.value.1| < |s|
  {
    if s == "" then None
    else if s[0] in {'\"', '\\', '/'} then Some((s[0], s[1..]))
    else if s[0] == 'b' then Some((8 as char, s[1..]))
    else if s[0] == 'f' then Some((12 as char, s[1..]))
    else if s[0] == 'n' then Some((10 as char, s[1..]))
    else if s[0] == 'r' then Some((13 as char, s[1..]))
    else if s[0] == 't' then Some((9 as char, s[1..]))
    else if s[0] == 'u' && |s| >= 5 then
      match ReadHex(s[1..5])
      case Some(n) => if 0xD800 <= n < 0xE000 then None else Some((n as char, s[5..]))
      case None => None
    else None
  }

  /** A string; `s` starts after the opening quote. */
  function ReadString(s: string): (r: Option<(string, string)>)
    ensures r.Some? ==> |r.value.1| < |s|
    decreases |s|
  {
    if s == "" || s[0] as int < 32 then None
    else if s[0] == '\"' then Some(("", s[1..]))
    else
      match (if s[0] == '\\' then ReadEscape(s[1..]) else Some((s[0], s[1..])))
      case None => None
      case Some((c, rest)) =>
        match ReadString(rest)
        case None => None
        case Some((more, after)) => Some(([c] + more, after))
  }

  // ---- Values -------------------------------------------------------------------------

  /** How many characters of a number the text starts with. */
  function NumeralLength(s: string): (n: nat)
    ensures n <= |s| && forall i :: 0 <= i < n ==> NumberChar(s[i])
  {
    if s == "" || !NumberChar(s[0]) then 0 else 1 + NumeralLength(s[1..])
  }

  function ReadNumeral(s: string): (r: Option<(Json, string)>)
    ensures r.Some? ==> |r.value.1| < |s|
  {
    var n := NumeralLength(s);
    if n > 0 && ('0' <= s[0] <= '9' || s[0] == '-') then Some((Num(s[..n]), s[n..])) else None
  }

  function ReadValue(s: string): (r: Option<(Json, string)>)
    ensures r.Some? ==> |r.value.1| < |s|
    decreases |s|, 1
  {
    if s == "" then None
    else if "null" <= s then Some((Null, s[4..]))
    else if "true" <= s then Some((Bool(true), s[4..]))
    else if "false" <= s then Some((Bool(false), s[5..]))
    else if s[0] == '\"' then
      match ReadString(s[1..])
      case Some((text, rest)) => Some((Str(text), rest))
      case None => None
    else if "[]" <= s then Some((Arr([]), s[2..]))
    else if s[0] == '[' then
      match ReadItems(s[1..])
      case Some((items, rest)) => Some((Arr(items), rest))
      case None => None
    else if "{}" <= s then Some((Obj([]), s[2..]))
    else if s[0] == '{' then
      match ReadMembers(s[1..])
      case Some((members, rest)) => Some((Obj(members), rest))
      case None => None
    else ReadNumeral(s)
  }

  /** One or more items between commas, and the closing bracket. */
  function ReadItems(s: string): (r: Option<(seq<Json>, string)>)
    ensures r.Some? ==> |r.value.1| < |s|
    decreases |s|, 2
  {
    match ReadValue(s)
    case None => None
    case Some((item, rest)) =>
      if "]" <= rest then Some(([item], rest[1..]))
      else if "," <= rest then
        match ReadItems(rest[1..])
        case Some((items, after)) => Some(([item] + items, after))
        case None => None
      else None
  }

  /** A quoted key, a colon and a value. */
  function ReadMember(s: string): (r: Option<(Member, string)>)
    ensures r.Some? ==> |r.value.1| < |s|
    decreases |s|, 0
  {
    if s == "" || s[0] != '\"' then None
    else
      match ReadString(s[1..])
      case None => None
      case Some((key, rest)) =>
        if !(":" <= rest) then None
        else
          match ReadValue(rest[1..])
          case Some((value, after)) => Some((Member(key, value), after))
          case None => None
  }

  /** One or more members between commas, and the closing brace. */
  function ReadMembers(s: string): (r: Option<(seq<Member>, string)>)
    ensures r.Some? ==> |r.value.1| < |s|
    decreases |s|, 2
  {
    match ReadMember(s)
    case None => None
    case Some((member, rest)) =>
      if "}" <= rest then Some(([member], rest[1..]))
      else if "," <= rest then
        match ReadMembers(rest[1..])
        case Some((members, after)) => Some(([member] + members, after))
        case None => None
      else None
  }

  // ---- What is printed is read back ---------------------------------------------------

  lemma HexDigitReads(n: nat)
    requires n < 16
    ensures HexValue(HexDigit(n)) == Some(n)
  {
  }

  /** What a string that starts with a given character or escape is read as. */
  function Cons(c: char, more: Option<(string, string)>): Option<(string, string)> {
    match more
    case Some((text, rest)) => Some(([c] + text, rest))
    case None => None
  }

  lemma PlainReads(c: char, x: string)
    requires c != '\"' && c != '\\' && c as int >= 32
    ensures ReadString([c] + x) == Cons(c, ReadString(x))
  {
    assert ([c] + x)[0] == c && ([c] + x)[1..] == x;
  }

  lemma BackslashReads(tail: string, c: char, x: string)
    requires ReadEscape(tail) == Some((c, x))
    ensures ReadString("\\" + tail) == Cons(c, ReadString(x))
  {
    hide ReadEscape;
    assert ("\\" + tail)[0] == '\\' && ("\\" + tail)[1..] == tail;
  }

  lemma LetterReads(letter: char, c: char, x: string)
    requires (letter, c) in {('\"', '\"'), ('\\', '\\'), ('b', 8 as char), ('t', 9 as char), ('n', 10 as char),
                             ('f', 12 as char), ('r', 13 as char)}
    ensures ReadEscape([letter] + x) == Some((c, x))
  {
    assert ([letter] + x)[0] == letter && ([letter] + x)[1..] == x;
  }

  lemma HexReads(c: char, x: string)
    requires c as int < 32
    ensures ReadEscape("u00" + [HexDigit(c as int / 16), HexDigit(c as int % 16)] + x) == Some((c, x))
  {
    var n := c as int;
    var tail := "u00" + [HexDigit(n / 16), HexDigit(n % 16)] + x;
    HexDigitReads(n / 16);
    HexDigitReads(n % 16);
    var hex := ['0', '0', HexDigit(n / 16), HexDigit(n % 16)];
    assert tail[0] == 'u' && tail[1..5] == hex && tail[5..] == x;
    assert HexValue('0') == Some(0);
    hide HexValue, HexDigit;
    assert ReadHex(hex) == Some(n);
  }

  /** An escaped character is read back, and the rest after it. */
  lemma EscapeReads(c: char, x: string)
    ensures ReadString(Escape(c) + x) == Cons(c, ReadString(x))
  {
    hide ReadString, ReadEscape, Cons;
    if Escape(c) == [c] {
      PlainReads(c, x);
    } else if |Escape(c)| == 2 {
      var letter := Escape(c)[1];
      assert Escape(c) + x == "\\" + ([letter] + x);
      LetterReads(letter, c, x);
      BackslashReads([letter] + x, c, x);
    } else {
      var tail := "u00" + [HexDigit(c as int / 16), HexDigit(c as int % 16)] + x;
      assert Escape(c) + x == "\\" + tail;
      HexReads(c, x);
      BackslashReads(tail, c, x);
    }
  }

  lemma {:induction false} StringReads(s: string, x: string)
    ensures ReadString(EscapeAll(s) + ("\"" + x)) == Some((s, x))
  {
    hide Escape;
    if s == "" {
      assert EscapeAll(s) + ("\"" + x) == "\"" + x;
      assert ("\"" + x)[1..] == x;
    } else {
      Assoc(Escape(s[0]), EscapeAll(s[1..]), "\"" + x);
      EscapeReads(s[0], EscapeAll(s[1..]) + ("\"" + x));
      StringReads(s[1..], x);
      assert s == [s[0]] + s[1..];
    }
  }

  lemma QuoteReads(s: string, x: string)
    ensures var text := Quote(s) + x;
      text != "" && text[0] == '\"' && ReadString(text[1..]) == Some((s, x))
  {
    Bracketed('\"', EscapeAll(s), '\"', x);
    assert (Quote(s) + x)[1..] == EscapeAll(s) + ("\"" + x);
    StringReads(s, x);
  }

  lemma {:induction false} NumeralLengthIs(s: string, x: string)
    requires (forall i :: 0 <= i < |s| ==> NumberChar(s[i])) && Delimited(x)
    ensures NumeralLength(s + x) == |s|
  {
    if s == "" {
      assert s + x == x;
    } else {
      assert (s + x)[1..] == s[1..] + x;
      NumeralLengthIs(s[1..], x);
    }
  }

  lemma NumeralReads(s: Numeral, x: string)
    requires Delimited(x)
    ensures ReadValue(s + x) == Some((Num(s), x))
  {
    assert IsNumeral(s);
    NumeralLengthIs(s, x);
    assert (s + x)[0] == s[0] && (s + x)[..|s|] == s && (s + x)[|s|..] == x;
  }

  lemma WordReads(x: string)
    ensures ReadValue("null" + x) == Some((Null, x))
    ensures ReadValue("true" + x) == Some((Bool(true), x))
    ensures ReadValue("false" + x) == Some((Bool(false), x))
  {
    hide ReadString, ReadItems, ReadMembers, ReadNumeral;
    assert ("null" + x)[..4] == "null" && ("null" + x)[4..] == x;
    assert ("true" + x)[0] == 't' && ("true" + x)[..4] == "true" && ("true" + x)[4..] == x;
    assert ("false" + x)[0] == 'f' && ("false" + x)[..5] == "false" && ("false" + x)[5..] == x;
  }

  lemma QuotedReads(s: string, x: string)
    ensures ReadValue(Quote(s) + x) == Some((Str(s), x))
  {
    QuoteReads(s, x);
    hide ReadString, ReadItems, ReadMembers, ReadNumeral, Quote;
  }

  /** An array: `body` is what follows the opening bracket. */
  lemma BracketReads(body: string, items: seq<Json>, x: string)
    ensures body == "]" + x ==> ReadValue("[" + body) == Some((Arr([]), x))
    ensures body != "" && body[0] != ']' && ReadItems(body) == Some((items, x)) ==>
      ReadValue("[" + body) == Some((Arr(items), x))
  {
    hide ReadString, ReadItems, ReadMembers, ReadNumeral;
    var text := "[" + body;
    assert text[0] == '[' && text[1..] == body;
    assert body != "" ==> text[1] == body[0];
    if body == "]" + x {
      assert text[..2] == "[]" && text[2..] == x;
    }
  }

  /** An object: `body` is what follows the opening brace. */
  lemma BraceReads(body: string, members: seq<Member>, x: string)
    ensures body == "}" + x ==> ReadValue("{" + body) == Some((Obj([]), x))
    ensures body != "" && body[0] != '}' && ReadMembers(body) == Some((members, x)) ==>
      ReadValue("{" + body) == Some((Obj(members), x))
  {
    hide ReadString, ReadItems, ReadMembers, ReadNumeral;
    var text := "{" + body;
    assert text[0] == '{' && text[1..] == body;
    assert body != "" ==> text[1] == body[0];
    if body == "}" + x {
      assert text[..2] == "{}" && text[2..] == x;
    }
  }

  /** Canonical text followed by a delimiter is read back as an equal value, and nothing more. */
  lemma {:induction false} ReadsBack(v: Json, x: string)
    requires Delimited(x)
    ensures var r := ReadValue(CanonicalText(v) + x);
      r.Some? && Same(v, r.value.0) && r.value.1 == x
    decreases v, 1, 0
  {
    hide ReadValue, ReadItems, ReadMembers;
    match v
    case Undefined => WordReads(x);
    case Null => WordReads(x);
    case Bool(_) => WordReads(x);
    case Num(numeral) => NumeralReads(numeral, x);
    case Str(s) => QuotedReads(s, x);
    case Arr(items) =>
      var body := ItemsText(items) + ("]" + x);
      Bracketed('[', ItemsText(items), ']', x);
      NextItem(items, x);
      if items != [] {
        ItemsReadBack(items, x);
        BracketReads(body, ReadItems(body).value.0, x);
      } else {
        BracketReads(body, [], x);
      }
    case Obj(ms) =>
      SortedMembers(ms);
      var sorted := SortMembers(ms);
      var body := MembersText(v, sorted) + ("}" + x);
      Bracketed('{', MembersText(v, sorted), '}', x);
      NextMember(v, sorted, x);
      var read := [];
      if sorted != [] {
        MembersReadBack(v, sorted, x);
        read := ReadMembers(body).value.0;
      }
      BraceReads(body, read, x);
      AlignedMatch(sorted, read);
      MatchIsSame(v, Obj(read), sorted, read);
  }

  lemma ItemFollows(s: string, item: Json, rest: string)
    requires ReadValue(s) == Some((item, rest))
    ensures "]" <= rest ==> ReadItems(s) == Some(([item], rest[1..]))
    ensures "," <= rest && ReadItems(rest[1..]).Some? ==>
      ReadItems(s) == Some(([item] + ReadItems(rest[1..]).value.0, ReadItems(rest[1..]).value.1))
  {
    hide ReadValue;
    assert "," <= rest ==> rest[0] == ',';
  }

  lemma {:induction false} ItemsReadBack(xs: seq<Json>, x: string)
    requires xs != []
    ensures var r := ReadItems(ItemsText(xs) + ("]" + x));
      && r.Some? && r.value.1 == x && |r.value.0| == |xs|
      && forall i :: 0 <= i < |xs| ==> Same(xs[i], r.value.0[i])
    decreases xs, 0, |xs|
  {
    hide CanonicalText, ReadValue, ReadItems;
    NextItem(xs, x);
    var text, after := ItemsText(xs) + ("]" + x), AfterItem(xs, x);
    ReadsBack(xs[0], after);
    ItemFollows(text, ReadValue(text).value.0, after);
    if |xs| == 1 {
      assert after[1..] == x;
    } else {
      assert after[1..] == ItemsText(xs[1..]) + ("]" + x);
      ItemsReadBack(xs[1..], x);
    }
  }

  lemma MemberReads(key: string, text: string, value: Json, rest: string)
    requires ReadValue(text) == Some((value, rest))
    ensures ReadMember(Quote(key) + (":" + text)) == Some((Member(key, value), rest))
  {
    QuoteReads(key, ":" + text);
    assert (":" + text)[1..] == text;
    hide ReadValue, ReadString, Quote;
  }

  lemma MemberFollows(s: string, member: Member, rest: string)
    requires ReadMember(s) == Some((member, rest))
    ensures "}" <= rest ==> ReadMembers(s) == Some(([member], rest[1..]))
    ensures "," <= rest && ReadMembers(rest[1..]).Some? ==>
      ReadMembers(s) == Some(([member] + ReadMembers(rest[1..]).value.0, ReadMembers(rest[1..]).value.1))
  {
    hide ReadMember;
    assert "," <= rest ==> rest[0] == ',';
  }

  lemma {:induction false} MembersReadBack(p: Json, ms: seq<Member>, x: string)
    requires p.Obj? && (forall m :: m in ms ==> m in p.members) && ms != []
    ensures var r := ReadMembers(MembersText(p, ms) + ("}" + x));
      r.Some? && r.value.1 == x && Aligned(ms, r.value.0)
    decreases p, 0, |ms|
  {
    hide CanonicalText, Quote, ReadValue, ReadMember, ReadMembers, Same;
    NextMember(p, ms, x);
    var m, after := ms[0], AfterMember(p, ms, x);
    var text := CanonicalText(m.value) + after;
    assert m in p.members;
    ReadsBack(m.value, after);
    var value := ReadValue(text).value.0;
    MemberReads(m.key, text, value, after);
    MemberFollows(MembersText(p, ms) + ("}" + x), Member(m.key, value), after);
    if |ms| == 1 {
      assert after[1..] == x;
    } else {
      assert after[1..] == MembersText(p, ms[1..]) + ("}" + x);
      MembersReadBack(p, ms[1..], x);
    }
  }

  /** Canonical text is JSON: reading it gives back the value that was printed. */
  lemma CanonicalTextReadsBack(v: Json)
    ensures var r := ReadValue(CanonicalText(v));
      r.Some? && Same(v, r.value.0) && r.value.1 == ""
  {
    ReadsBack(v, "");
    assert CanonicalText(v) + "" == CanonicalText(v);
  }
}
