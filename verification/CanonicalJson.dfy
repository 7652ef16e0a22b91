/**
 `canonicalJson` (src/modules/audit/audit.chain.service.ts): the text whose hash the audit chain
 records.

 Strings are sequences of Unicode scalar values. A number is represented by the text
 `JSON.stringify` prints for it, so two numbers are equal when they print alike. An object is the
 list of its members in insertion order, with distinct keys.
 */
module CanonicalJson {

  // ---- JSON values --------------------------------------------------------------------

  predicate NumberChar(c: char) {
    '0' <= c <= '9' || c == '-' || c == '+' || c == '.' || c == 'e'
  }

  /** The shape of the number texts of section 6 of RFC 8259 that matters here. */
  predicate IsNumeral(s: string) {
    |s| > 0 && ('0' <= s[0] <= '9' || s[0] == '-') && forall i :: 0 <= i < |s| ==> NumberChar(s[i])
  }

  type Numeral = s: string | IsNumeral(s) witness "0"

  datatype Member = Member(key: string, value: Json)

  datatype Json =
    | Undefined
    | Null
    | Bool(b: bool)
    | Num(numeral: Numeral)
    | Str(s: string)
    | Arr(items: seq<Json>)
    | Obj(members: seq<Member>)

  /** Every object inside v has distinct keys, as a JavaScript object does. */
  ghost predicate WellFormed(v: Json) {
    match v
    case Arr(items) => forall i :: 0 <= i < |items| ==> WellFormed(items[i])
    case Obj(ms) => DistinctKeys(ms) && forall m :: m in ms ==> WellFormed(m.value)
    case _ => true
  }

  ghost predicate DistinctKeys(ms: seq<Member>) {
    forall i, j :: 0 <= i < j < |ms| ==> ms[i].key != ms[j].key
  }

  /**
   Equality of JSON values: objects are equal when they have the same keys with equal values,
   in whatever order; `undefined` counts as null.
   */
  ghost predicate Same(v: Json, w: Json) {
    match v
    case Undefined => w.Undefined? || w.Null?
    case Null => w.Undefined? || w.Null?
    case Arr(xs) => w.Arr? && |xs| == |w.items| && forall i :: 0 <= i < |xs| ==> Same(xs[i], w.items[i])
    case Obj(ms) =>
      && w.Obj?
      && (forall m :: m in ms ==> HasEqual(m, w.members))
      && (forall n :: n in w.members ==> HasKey(n.key, ms))
    case _ => v == w
  }

  ghost predicate HasEqual(m: Member, ns: seq<Member>)
    decreases m
  {
    exists n :: n in ns && n.key == m.key && Same(m.value, n.value)
  }

  ghost predicate HasKey(key: string, ms: seq<Member>) {
    exists m :: m in ms && m.key == key
  }

  // ---- Key order ----------------------------------------------------------------------

  /** Rank of a character in the order of UTF-16 code units: U+10000 and above sort before U+E000. */
  function Utf16Rank(c: char): int {
    var n := c as int;
    if n < 0xE000 then n else if n >= 0x10000 then n - 0x2000 else n + 0x100000
  }

  predicate Before(s: string, t: string) {
    if t == "" then false
    else if s == "" then true
    else if s[0] == t[0] then Before(s[1..], t[1..])
    else Utf16Rank(s[0]) < Utf16Rank(t[0])
  }

  lemma {:induction false} BeforeIsTotal(s: string, t: string)
    ensures s == t || Before(s, t) || Before(t, s)
  {
    if s != "" && t != "" && s[0] == t[0] {
      BeforeIsTotal(s[1..], t[1..]);
      assert s == [s[0]] + s[1..] && t == [t[0]] + t[1..];
    }
  }

  lemma {:induction false} BeforeIsAsymmetric(s: string, t: string)
    ensures !(Before(s, t) && Before(t, s))
  {
    if s != "" && t != "" && s[0] == t[0] {
      BeforeIsAsymmetric(s[1..], t[1..]);
    }
  }

  lemma {:induction false} BeforeIsTransitive(s: string, t: string, u: string)
    requires Before(s, t) && Before(t, u)
    ensures Before(s, u)
  {
    if s != "" && s[0] == t[0] && t[0] == u[0] {
      BeforeIsTransitive(s[1..], t[1..], u[1..]);
    }
  }

  function InsertMember(m: Member, sorted: seq<Member>): seq<Member> {
    if sorted == [] || Before(m.key, sorted[0].key) then [m] + sorted
    else [sorted[0]] + InsertMember(m, sorted[1..])
  }

  /** The members in the order of `Object.keys(record).sort()`. */
  function SortMembers(ms: seq<Member>): seq<Member> {
    if ms == [] then [] else InsertMember(ms[0], SortMembers(ms[1..]))
  }

  lemma {:induction false} InsertKeeps(m: Member, sorted: seq<Member>, x: Member)
    ensures x in InsertMember(m, sorted) <==> x == m || x in sorted
  {
    if sorted == [] || Before(m.key, sorted[0].key) {
    } else {
      InsertKeeps(m, sorted[1..], x);
      assert sorted == [sorted[0]] + sorted[1..];
    }
  }

  lemma {:induction false} SortKeeps(ms: seq<Member>, x: Member)
    ensures x in SortMembers(ms) <==> x in ms
  {
    if ms != [] {
      InsertKeeps(ms[0], SortMembers(ms[1..]), x);
      SortKeeps(ms[1..], x);
      assert ms == [ms[0]] + ms[1..];
    }
  }

  lemma SortedMembers(ms: seq<Member>)
    ensures forall x :: x in SortMembers(ms) <==> x in ms
  {
    forall x
      ensures x in SortMembers(ms) <==> x in ms
    {
      SortKeeps(ms, x);
    }
  }

  /** Each key strictly before the next. */
  ghost predicate Ascending(ms: seq<Member>) {
    |ms| > 1 ==> Before(ms[0].key, ms[1].key) && Ascending(ms[1..])
  }

  lemma {:induction false} InsertAscends(m: Member, sorted: seq<Member>)
    requires Ascending(sorted)
    requires forall x :: x in sorted ==> x.key != m.key
    ensures Ascending(InsertMember(m, sorted))
  {
    if sorted == [] || Before(m.key, sorted[0].key) {
      assert ([m] + sorted)[1..] == sorted;
    } else {
      BeforeIsTotal(m.key, sorted[0].key);
      assert sorted[0] in sorted;
      InsertAscends(m, sorted[1..]);
      var rest := InsertMember(m, sorted[1..]);
      assert ([sorted[0]] + rest)[1..] == rest;
    }
  }

  lemma {:induction false} SortAscends(ms: seq<Member>)
    requires DistinctKeys(ms)
    ensures Ascending(SortMembers(ms))
  {
    if ms != [] {
      SortAscends(ms[1..]);
      SortedMembers(ms[1..]);
      InsertAscends(ms[0], SortMembers(ms[1..]));
    }
  }

  lemma {:induction false} HeadIsLeast(ms: seq<Member>, x: Member)
    requires Ascending(ms) && x in ms
    ensures x == ms[0] || Before(ms[0].key, x.key)
  {
    if x != ms[0] {
      assert x in ms[1..];
      HeadIsLeast(ms[1..], x);
      if x != ms[1] {
        BeforeIsTransitive(ms[0].key, ms[1].key, x.key);
      }
    }
  }

  // ---- The printer --------------------------------------------------------------------

  function HexDigit(n: int): char
    requires 0 <= n < 16
  {
    "0123456789abcdef"[n]
  }

  /** One character inside a quoted string, as `JSON.stringify` prints it. */
  function Escape(c: char): string {
    if c == '\"' then "\\\""
    else if c == '\\' then "\\\\"
    else if c as int == 8 then "\\b"
    else if c as int == 9 then "\\t"
    else if c as int == 10 then "\\n"
    else if c as int == 12 then "\\f"
    else if c as int == 13 then "\\r"
    else if c as int < 32 then "\\u00" + [HexDigit(c as int / 16), HexDigit(c as int % 16)]
    else [c]
  }

  function EscapeAll(s: string): string {
    if s == "" then "" else Escape(s[0]) + EscapeAll(s[1..])
  }

  function Quote(s: string): string {
    "\"" + EscapeAll(s) + "\""
  }

  function CanonicalText(v: Json): string
    decreases v, 1, 0
  {
    match v
    case Undefined => "null"
    case Null => "null"
    case Bool(b) => if b then "true" else "false"
    case Num(numeral) => numeral
    case Str(s) => Quote(s)
    case Arr(items) => "[" + ItemsText(items) + "]"
    case Obj(ms) =>
      SortedMembers(ms);
      "{" + MembersText(v, SortMembers(ms)) + "}"
  }

  /** The items joined by commas. */
  function ItemsText(items: seq<Json>): string
    decreases items, 0, |items|
  {
    if items == [] then ""
    else if |items| == 1 then CanonicalText(items[0])
    else CanonicalText(items[0]) + "," + ItemsText(items[1..])
  }

  /** Members of `parent` in the order given, joined by commas. */
  function MembersText(ghost parent: Json, ms: seq<Member>): string
    requires parent.Obj? && forall m :: m in ms ==> m in parent.members
    decreases parent, 0, |ms|
  {
    if ms == [] then ""
    else if |ms| == 1 then MemberText(parent, ms[0])
    else MemberText(parent, ms[0]) + "," + MembersText(parent, ms[1..])
  }

  function MemberText(ghost parent: Json, m: Member): string
    requires parent.Obj? && m in parent.members
    decreases parent, 0, 0
  {
    Quote(m.key) + ":" + CanonicalText(m.value)
  }

  // ---- Unique readability -------------------------------------------------------------

  lemma Assoc(a: string, b: string, c: string)
    ensures (a + b) + c == a + (b + c)
  {
  }

  /** Reading the same text with a shorter and a longer first part. */
  lemma Overlap(a: string, x: string, b: string, y: string)
    requires a + x == b + y && |a| <= |b|
    ensures x == b[|a|..] + y && a == b[..|a|]
  {
    assert a == (a + x)[..|a|];
    assert x == (a + x)[|a|..];
  }

  /** No escape is a proper prefix of another, and each stands for one character. */
  lemma EscapePrefix(c: char, d: char)
    requires Escape(c) <= Escape(d)
    ensures c == d
  {
    assert Escape(c)[0] == Escape(d)[0];
    if Escape(c)[0] == '\\' {
      assert Escape(c)[1] == Escape(d)[1];
      if |Escape(c)| == 6 {
        assert Escape(c)[4] == Escape(d)[4] && Escape(c)[5] == Escape(d)[5];
        HexDigitInjective(c as int / 16, d as int / 16);
        HexDigitInjective(c as int % 16, d as int % 16);
      }
    }
  }

  lemma HexDigitInjective(m: int, n: int)
    requires 0 <= m < 16 && 0 <= n < 16 && HexDigit(m) == HexDigit(n)
    ensures m == n
  {
  }

  lemma EscapeReadable(c: char, d: char, x: string, y: string)
    requires Escape(c) + x == Escape(d) + y
    ensures c == d && x == y
  {
    hide Escape;
    if |Escape(c)| <= |Escape(d)| {
      Overlap(Escape(c), x, Escape(d), y);
      EscapePrefix(c, d);
    } else {
      Overlap(Escape(d), y, Escape(c), x);
      EscapePrefix(d, c);
    }
    assert Escape(c)[|Escape(c)|..] == "";
  }

  lemma EscapeNeverCloses(c: char)
    ensures Escape(c) != "" && Escape(c)[0] != '\"'
  {
  }

  /** The text before a closing quote determines the string. */
  lemma {:induction false} EscapeAllReadable(s: string, t: string, x: string, y: string)
    requires EscapeAll(s) + ("\"" + x) == EscapeAll(t) + ("\"" + y)
    ensures s == t && x == y
  {
    hide Escape;
    var text := EscapeAll(s) + ("\"" + x);
    if s != "" {
      EscapeNeverCloses(s[0]);
      assert text[0] == Escape(s[0])[0];
    }
    if t != "" {
      EscapeNeverCloses(t[0]);
      assert (EscapeAll(t) + ("\"" + y))[0] == Escape(t[0])[0];
    }
    assert s == "" ==> text == "\"" + x;
    assert t == "" ==> text == "\"" + y;
    if s == "" || t == "" {
      SameTail('\"', x, y);
    } else {
      Assoc(Escape(s[0]), EscapeAll(s[1..]), "\"" + x);
      Assoc(Escape(t[0]), EscapeAll(t[1..]), "\"" + y);
      EscapeReadable(s[0], t[0], EscapeAll(s[1..]) + ("\"" + x), EscapeAll(t[1..]) + ("\"" + y));
      EscapeAllReadable(s[1..], t[1..], x, y);
      assert s == [s[0]] + s[1..] && t == [t[0]] + t[1..];
    }
  }

  /** Text between brackets, read from the left. */
  lemma Bracketed(open: char, body: string, close: char, x: string)
    ensures ([open] + body + [close]) + x == [open] + (body + ([close] + x))
  {
  }

  lemma SameTail(c: char, x: string, y: string)
    requires [c] + x == [c] + y
    ensures x == y
  {
    Overlap([c], x, [c], y);
  }

  lemma QuoteReadable(s: string, t: string, x: string, y: string)
    requires Quote(s) + x == Quote(t) + y
    ensures s == t && x == y
  {
    Bracketed('\"', EscapeAll(s), '\"', x);
    Bracketed('\"', EscapeAll(t), '\"', y);
    SameTail('\"', EscapeAll(s) + ("\"" + x), EscapeAll(t) + ("\"" + y));
    EscapeAllReadable(s, t, x, y);
  }

  /** What may follow a value: the end of the text, a comma or a closing bracket. */
  predicate Delimited(x: string) {
    x == "" || x[0] == ',' || x[0] == ']' || x[0] == '}'
  }

  lemma NumeralReadable(s: Numeral, t: Numeral, x: string, y: string)
    requires Delimited(x) && Delimited(y) && s + x == t + y
    ensures s == t && x == y
  {
    assert IsNumeral(s) && IsNumeral(t);
    if |s| <= |t| {
      Overlap(s, x, t, y);
    } else {
      Overlap(t, y, s, x);
    }
  }

  /** The first character tells the kinds of value apart. */
  lemma FirstChar(v: Json)
    ensures var text := CanonicalText(v);
      && text != ""
      && text[0] != ',' && text[0] != ']' && text[0] != '}'
      && ((v.Null? || v.Undefined?) <==> text[0] == 'n')
      && (v == Bool(true) <==> text[0] == 't')
      && (v == Bool(false) <==> text[0] == 'f')
      && (v.Num? <==> '0' <= text[0] <= '9' || text[0] == '-')
      && (v.Str? <==> text[0] == '\"')
      && (v.Arr? <==> text[0] == '[')
      && (v.Obj? <==> text[0] == '{')
  {
    if v.Num? {
      assert IsNumeral(v.numeral);
    }
  }

  /** Two values whose texts start alike are of the same kind. */
  lemma SameKind(v: Json, w: Json, x: string, y: string)
    requires CanonicalText(v) + x == CanonicalText(w) + y
    ensures (v.Null? || v.Undefined?) <==> (w.Null? || w.Undefined?)
    ensures v.Bool? ==> v == w
    ensures (v.Num? <==> w.Num?) && (v.Str? <==> w.Str?) && (v.Arr? <==> w.Arr?) && (v.Obj? <==> w.Obj?)
  {
    FirstChar(v);
    FirstChar(w);
    assert CanonicalText(v)[0] == (CanonicalText(v) + x)[0];
    assert CanonicalText(w)[0] == (CanonicalText(w) + y)[0];
  }

  /** Canonical text followed by a delimiter is read in one way only. */
  lemma {:induction false} Readable(v: Json, w: Json, x: string, y: string)
    requires WellFormed(v) && WellFormed(w) && Delimited(x) && Delimited(y)
    requires CanonicalText(v) + x == CanonicalText(w) + y
    ensures Same(v, w) && x == y
    decreases v, 1, 0
  {
    SameKind(v, w, x, y);
    match v
    case Num(numeral) => NumeralReadable(numeral, w.numeral, x, y);
    case Str(s) => QuoteReadable(s, w.s, x, y);
    case Arr(items) =>
      Bracketed('[', ItemsText(items), ']', x);
      Bracketed('[', ItemsText(w.items), ']', y);
      SameTail('[', ItemsText(items) + ("]" + x), ItemsText(w.items) + ("]" + y));
      ItemsReadable(items, w.items, x, y);
    case Obj(ms) =>
      SortedMembers(ms);
      SortedMembers(w.members);
      var ms', ns' := SortMembers(ms), SortMembers(w.members);
      Bracketed('{', MembersText(v, ms'), '}', x);
      Bracketed('{', MembersText(w, ns'), '}', y);
      SameTail('{', MembersText(v, ms') + ("}" + x), MembersText(w, ns') + ("}" + y));
      MembersReadable(v, w, ms', ns', x, y);
      AlignedMatch(ms', ns');
      MatchIsSame(v, w, ms', ns');
    case _ => Overlap(CanonicalText(v), x, CanonicalText(w), y);
  }

  lemma {:induction false} ItemsReadable(xs: seq<Json>, ys: seq<Json>, x: string, y: string)
    requires forall i :: 0 <= i < |xs| ==> WellFormed(xs[i])
    requires forall i :: 0 <= i < |ys| ==> WellFormed(ys[i])
    requires ItemsText(xs) + ("]" + x) == ItemsText(ys) + ("]" + y)
    ensures |xs| == |ys| && (forall i :: 0 <= i < |xs| ==> Same(xs[i], ys[i])) && x == y
    decreases xs, 0, |xs|
  {
    hide CanonicalText;
    NextItem(xs, x);
    NextItem(ys, y);
    if xs == [] || ys == [] {
      SameTail(']', x, y);
    } else {
      Readable(xs[0], ys[0], AfterItem(xs, x), AfterItem(ys, y));
      if |xs| == 1 || |ys| == 1 {
        SameTail(']', x, y);
      } else {
        SameTail(',', ItemsText(xs[1..]) + ("]" + x), ItemsText(ys[1..]) + ("]" + y));
        ItemsReadable(xs[1..], ys[1..], x, y);
      }
    }
  }

  /** The text that follows the first of the items of an array. */
  function AfterItem(xs: seq<Json>, x: string): string
    requires xs != []
  {
    if |xs| == 1 then "]" + x else "," + (ItemsText(xs[1..]) + ("]" + x))
  }

  lemma NextItem(xs: seq<Json>, x: string)
    ensures xs == [] ==> ItemsText(xs) + ("]" + x) == "]" + x
    ensures xs != [] ==> ItemsText(xs) + ("]" + x) == CanonicalText(xs[0]) + AfterItem(xs, x)
    ensures xs != [] ==> (ItemsText(xs) + ("]" + x))[0] != ']'
  {
    if xs != [] {
      FirstChar(xs[0]);
      if |xs| > 1 {
        Assoc(CanonicalText(xs[0]) + ",", ItemsText(xs[1..]), "]" + x);
        Assoc(CanonicalText(xs[0]), ",", ItemsText(xs[1..]) + ("]" + x));
      }
    }
  }

  /** Member lists that agree position by position. */
  ghost predicate Aligned(ms: seq<Member>, ns: seq<Member>) {
    |ms| == |ns| && forall i :: 0 <= i < |ms| ==> ms[i].key == ns[i].key && Same(ms[i].value, ns[i].value)
  }

  /** Every member of each list has its equal in the other. */
  ghost predicate Match(ms: seq<Member>, ns: seq<Member>) {
    && (forall m :: m in ms ==> HasEqual(m, ns))
    && (forall n :: n in ns ==> HasKey(n.key, ms))
  }

  lemma AlignedMatch(ms: seq<Member>, ns: seq<Member>)
    requires Aligned(ms, ns)
    ensures Match(ms, ns)
  {
    forall m | m in ms
      ensures HasEqual(m, ns)
    {
      var i :| 0 <= i < |ms| && ms[i] == m;
      assert ns[i] in ns;
    }
    forall n | n in ns
      ensures HasKey(n.key, ms)
    {
      var i :| 0 <= i < |ns| && ns[i] == n;
      assert ms[i] in ms;
    }
  }

  /** Equality of objects, in terms of any rearrangement of their members. */
  lemma MatchIsSame(v: Json, w: Json, ms: seq<Member>, ns: seq<Member>)
    requires v.Obj? && w.Obj?
    requires forall m :: m in ms <==> m in v.members
    requires forall n :: n in ns <==> n in w.members
    ensures Same(v, w) <==> Match(ms, ns)
  {
    SameIsMatch(v, w);
    if Match(v.members, w.members) {
      Rearranged(v.members, w.members, ms, ns);
    }
    if Match(ms, ns) {
      Rearranged(ms, ns, v.members, w.members);
    }
  }

  lemma SameIsMatch(v: Json, w: Json)
    requires v.Obj? && w.Obj?
    ensures Same(v, w) <==> Match(v.members, w.members)
  {
  }

  lemma Rearranged(ms: seq<Member>, ns: seq<Member>, ms': seq<Member>, ns': seq<Member>)
    requires Match(ms, ns)
    requires forall m :: m in ms <==> m in ms'
    requires forall n :: n in ns <==> n in ns'
    ensures Match(ms', ns')
  {
    hide Same;
    forall m | m in ms'
      ensures HasEqual(m, ns')
    {
      assert HasEqual(m, ns);
      var n :| n in ns && n.key == m.key && Same(m.value, n.value);
      assert n in ns';
    }
    forall n | n in ns'
      ensures HasKey(n.key, ms')
    {
      assert HasKey(n.key, ms);
      var m :| m in ms && m.key == n.key;
      assert m in ms';
    }
  }

  lemma {:induction false} MembersReadable(p: Json, q: Json, ms: seq<Member>, ns: seq<Member>, x: string, y: string)
    requires p.Obj? && q.Obj? && WellFormed(p) && WellFormed(q)
    requires forall m :: m in ms ==> m in p.members
    requires forall n :: n in ns ==> n in q.members
    requires MembersText(p, ms) + ("}" + x) == MembersText(q, ns) + ("}" + y)
    ensures Aligned(ms, ns) && x == y
    decreases p, 0, |ms|
  {
    hide CanonicalText, Quote;
    NextMember(p, ms, x);
    NextMember(q, ns, y);
    if ms == [] || ns == [] {
      SameTail('}', x, y);
    } else {
      var m, n := ms[0], ns[0];
      var restX, restY := AfterMember(p, ms, x), AfterMember(q, ns, y);
      QuoteReadable(m.key, n.key, ":" + (CanonicalText(m.value) + restX), ":" + (CanonicalText(n.value) + restY));
      SameTail(':', CanonicalText(m.value) + restX, CanonicalText(n.value) + restY);
      assert m in p.members;
      Readable(m.value, n.value, restX, restY);
      if |ms| == 1 || |ns| == 1 {
        SameTail('}', x, y);
      } else {
        SameTail(',', MembersText(p, ms[1..]) + ("}" + x), MembersText(q, ns[1..]) + ("}" + y));
        MembersReadable(p, q, ms[1..], ns[1..], x, y);
      }
    }
  }

  /** The text that follows the first of the members of an object. */
  function AfterMember(ghost p: Json, ms: seq<Member>, x: string): string
    requires p.Obj? && forall m :: m in ms ==> m in p.members
    requires ms != []
  {
    if |ms| == 1 then "}" + x else "," + (MembersText(p, ms[1..]) + ("}" + x))
  }

  lemma NextMember(p: Json, ms: seq<Member>, x: string)
    requires p.Obj? && forall m :: m in ms ==> m in p.members
    ensures ms == [] ==> MembersText(p, ms) + ("}" + x) == "}" + x
    ensures ms != [] ==>
      MembersText(p, ms) + ("}" + x) == Quote(ms[0].key) + (":" + (CanonicalText(ms[0].value) + AfterMember(p, ms, x)))
    ensures ms != [] ==> (MembersText(p, ms) + ("}" + x))[0] != '}'
  {
    if ms != [] {
      var key, value, rest := Quote(ms[0].key), CanonicalText(ms[0].value), AfterMember(p, ms, x);
      if |ms| > 1 {
        Assoc(key + ":" + value + ",", MembersText(p, ms[1..]), "}" + x);
        Assoc(key + ":" + value, ",", MembersText(p, ms[1..]) + ("}" + x));
      }
      Assoc(key + ":", value, rest);
      Assoc(key, ":", value + rest);
    }
  }

  // ---- Equal values print alike -------------------------------------------------------

  lemma {:induction false} SameText(v: Json, w: Json)
    requires WellFormed(v) && WellFormed(w) && Same(v, w)
    ensures CanonicalText(v) == CanonicalText(w)
    decreases v, 1, 0
  {
    match v
    case Arr(items) => SameItemsText(items, w.items);
    case Obj(ms) =>
      SortedMembers(ms);
      SortedMembers(w.members);
      SortAscends(ms);
      SortAscends(w.members);
      MatchIsSame(v, w, SortMembers(ms), SortMembers(w.members));
      SameMembersText(v, w, SortMembers(ms), SortMembers(w.members));
    case _ =>
  }

  lemma {:induction false} SameItemsText(xs: seq<Json>, ys: seq<Json>)
    requires |xs| == |ys|
    requires forall i :: 0 <= i < |xs| ==> WellFormed(xs[i]) && WellFormed(ys[i]) && Same(xs[i], ys[i])
    ensures ItemsText(xs) == ItemsText(ys)
    decreases xs, 0, |xs|
  {
    if xs != [] {
      SameText(xs[0], ys[0]);
      SameItemsText(xs[1..], ys[1..]);
    }
  }

  /** Sorting makes the order of the members immaterial. */
  lemma {:induction false} SameMembersText(p: Json, q: Json, ms: seq<Member>, ns: seq<Member>)
    requires p.Obj? && q.Obj? && WellFormed(p) && WellFormed(q)
    requires forall m :: m in ms ==> m in p.members
    requires forall n :: n in ns ==> n in q.members
    requires Ascending(ms) && Ascending(ns) && Match(ms, ns)
    ensures MembersText(p, ms) == MembersText(q, ns)
    decreases p, 0, |ms|
  {
    hide Match, CanonicalText, Quote;
    MatchEmpty(ms, ns);
    if ms != [] {
      HeadsAgree(ms, ns);
      TailsMatch(ms, ns);
      MatchEmpty(ms[1..], ns[1..]);
      assert ms[0] in p.members;
      SameText(ms[0].value, ns[0].value);
      SameMembersText(p, q, ms[1..], ns[1..]);
    }
  }

  lemma MatchEmpty(ms: seq<Member>, ns: seq<Member>)
    requires Match(ms, ns)
    ensures ms == [] <==> ns == []
  {
    if ms != [] {
      assert HasEqual(ms[0], ns);
    }
    if ns != [] {
      assert HasKey(ns[0].key, ms);
    }
  }

  lemma TailIsAfterHead(ms: seq<Member>, x: Member)
    requires Ascending(ms) && ms != [] && x in ms[1..]
    ensures ms[0].key != x.key
  {
    HeadIsLeast(ms[1..], x);
    if x != ms[1] {
      BeforeIsTransitive(ms[0].key, ms[1].key, x.key);
    }
    BeforeIsAsymmetric(x.key, x.key);
  }

  lemma HeadsAgree(ms: seq<Member>, ns: seq<Member>)
    requires ms != [] && ns != [] && Ascending(ms) && Ascending(ns) && Match(ms, ns)
    ensures ms[0].key == ns[0].key && Same(ms[0].value, ns[0].value)
  {
    assert HasEqual(ms[0], ns) && HasKey(ns[0].key, ms);
    var n0 :| n0 in ns && n0.key == ms[0].key && Same(ms[0].value, n0.value);
    var m0 :| m0 in ms && m0.key == ns[0].key;
    HeadIsLeast(ns, n0);
    HeadIsLeast(ms, m0);
    BeforeIsAsymmetric(ms[0].key, ns[0].key);
    BeforeIsAsymmetric(ns[0].key, ns[0].key);
  }

  lemma TailsMatch(ms: seq<Member>, ns: seq<Member>)
    requires ms != [] && ns != [] && Ascending(ms) && Ascending(ns) && Match(ms, ns) && ms[0].key == ns[0].key
    ensures Match(ms[1..], ns[1..])
  {
    forall m | m in ms[1..]
      ensures HasEqual(m, ns[1..])
    {
      TailIsAfterHead(ms, m);
      assert HasEqual(m, ns);
      var n :| n in ns && n.key == m.key && Same(m.value, n.value);
      assert n in ns[1..];
    }
    forall n | n in ns[1..]
      ensures HasKey(n.key, ms[1..])
    {
      TailIsAfterHead(ns, n);
      assert HasKey(n.key, ms);
      var m :| m in ms && m.key == n.key;
      assert m in ms[1..];
    }
  }

  /** Two JSON values print the same canonical text exactly when they are equal as values. */
  lemma CanonicalTextIsInjective(v: Json, w: Json)
    requires WellFormed(v) && WellFormed(w)
    ensures CanonicalText(v) == CanonicalText(w) <==> Same(v, w)
  {
    if CanonicalText(v) == CanonicalText(w) {
      Readable(v, w, "", "");
    }
    if Same(v, w) {
      SameText(v, w);
    }
  }

  // ---- The hashed text ----------------------------------------------------------------

  predicate NoBar(s: string) {
    forall i :: 0 <= i < |s| ==> s[i] != '|'
  }

  function HashedText(prevHash: string, payload: string, timestamp: string): string {
    prevHash + "|" + payload + "|" + timestamp
  }

  /** The hashed text determines its three parts, although the payload may itself contain bars. */
  lemma HashedTextIsInjective(p: string, s: string, t: string, p': string, s': string, t': string)
    requires NoBar(p) && NoBar(p') && NoBar(t) && NoBar(t')
    requires HashedText(p, s, t) == HashedText(p', s', t')
    ensures p == p' && s == s' && t == t'
  {
    Assoc(p + "|" + s, "|", t);
    Assoc(p + "|", s, "|" + t);
    Assoc(p' + "|" + s', "|", t');
    Assoc(p' + "|", s', "|" + t');
    FirstBar(p, s + ("|" + t), p', s' + ("|" + t'));
    LastBar(s, t, s', t');
  }

  lemma FirstOf(a: string, x: string)
    ensures a != "" ==> a + x != "" && (a + x)[0] == a[0]
  {
  }

  lemma BarAt(a: string, x: string)
    ensures |a + ("|" + x)| > |a| && (a + ("|" + x))[|a|] == '|'
  {
  }

  lemma CharAfter(c: char, x: string)
    ensures |[c] + x| == 1 + |x| && forall i :: 1 <= i <= |x| ==> ([c] + x)[i] == x[i - 1]
  {
  }

  lemma BarFirst(x: string, q: string, x': string)
    requires NoBar(q) && "|" + x == q + ("|" + x')
    ensures q == "" && x == x'
  {
    FirstOf(q, "|" + x');
    assert q + ("|" + x') == "|" + x';
    SameTail('|', x, x');
  }

  lemma FirstBar(p: string, x: string, p': string, x': string)
    requires NoBar(p) && NoBar(p') && p + "|" + x == p' + "|" + x'
    ensures p == p' && x == x'
  {
    Assoc(p, "|", x);
    Assoc(p', "|", x');
    if |p| <= |p'| {
      Overlap(p, "|" + x, p', "|" + x');
      BarFirst(x, p'[|p|..], x');
    } else {
      Overlap(p', "|" + x', p, "|" + x);
      BarFirst(x', p[|p'|..], x);
    }
  }

  lemma BarInside(t: string, q: string, t': string)
    requires "|" + t == q + ("|" + t') && NoBar(t)
    ensures q == "" && t == t'
  {
    CharAfter('|', t);
    BarAt(q, t');
    assert q + ("|" + t') == "|" + t';
    SameTail('|', t, t');
  }

  lemma LastBar(s: string, t: string, s': string, t': string)
    requires NoBar(t) && NoBar(t') && s + ("|" + t) == s' + ("|" + t')
    ensures s == s' && t == t'
  {
    if |s| <= |s'| {
      Overlap(s, "|" + t, s', "|" + t');
      BarInside(t, s'[|s|..], t');
    } else {
      Overlap(s', "|" + t', s, "|" + t);
      BarInside(t', s[|s'|..], t);
    }
  }
}
