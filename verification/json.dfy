/** Structured documents, the model of `serde_json::Value`, and their text form,
    the model of `serde_json::to_string` and `serde_json::from_str`.

    The text form is JSON without whitespace. Inside a string only the quote
    and the backslash are escaped, and an escaped character stands for itself.
    The encoding details are not what the storage layer depends on; what it
    depends on is that parsing the text of a document gives the document back,
    which `ParseInvertsSerialize` proves. */
module Json {
  import opened Results
  import opened Errors

  datatype Json =
    | Null
    | Bool(b: bool)
    | Number(n: int)
    | Str(s: string)
    | Array(items: seq<Json>)
    | Object(members: seq<Member>)

  /** One `"name": value` entry of an object, in document order. */
  datatype Member = Member(name: string, value: Json)

  /** What a parser read from the front of a text, and the text left over. */
  datatype Parsed<T> = Parsed(value: T, rest: string)

  /** `serde_json::from_value::<String>`: only a string document is a string. */
  function AsString(j: Json): Result<string, MutinyError> {
    if j.Str? then Success(j.s) else Failure(SerdeError)
  }

  // ---------------------------------------------------------------------------
  // Digits

  predicate IsDigit(c: char) {
    '0' <= c <= '9'
  }

  function DigitChar(d: nat): (c: char)
    requires d < 10
    ensures IsDigit(c)
  {
    ('0' as int + d) as char
  }

  function DigitValue(c: char): (d: nat)
    requires IsDigit(c)
    ensures d < 10
  {
    c as int - '0' as int
  }

  /** Decimal digits of `n`, most significant first. */
  function NatText(n: nat): (r: string)
    ensures |r| > 0
    ensures forall i :: 0 <= i < |r| ==> IsDigit(r[i])
    decreases n
  {
    if n < 10 then [DigitChar(n)] else NatText(n / 10) + [DigitChar(n % 10)]
  }

  /** The number a string of decimal digits denotes. */
  function DigitsValue(d: string): nat
    requires forall i :: 0 <= i < |d| ==> IsDigit(d[i])
  {
    if |d| == 0 then 0 else 10 * DigitsValue(d[..|d| - 1]) + DigitValue(d[|d| - 1])
  }

  /** Length of the longest prefix of `s` made of digits. */
  function DigitSpan(s: string): (r: nat)
    ensures r <= |s|
    ensures forall i :: 0 <= i < r ==> IsDigit(s[i])
    ensures r < |s| ==> !IsDigit(s[r])
  {
    if |s| > 0 && IsDigit(s[0]) then 1 + DigitSpan(s[1..]) else 0
  }

  function NumberText(n: int): string {
    if n < 0 then "-" + NatText(-n) else NatText(n)
  }

  // ---------------------------------------------------------------------------
  // Strings

  function EscapeChar(c: char): string {
    if c == '"' || c == '\\' then ['\\', c] else [c]
  }

  function Escape(s: string): (r: string)
    ensures |r| >= |s|
  {
    if |s| == 0 then "" else EscapeChar(s[0]) + Escape(s[1..])
  }

  /** A string literal: the escaped characters between two quotes. */
  function Quote(s: string): (r: string)
    ensures |r| >= |s| + 2
  {
    "\"" + Escape(s) + "\""
  }

  // ---------------------------------------------------------------------------
  // Serialization (`serde_json::to_string`)

  function Serialize(j: Json): (r: string)
    ensures |r| > 0 && r[0] != ']' && r[0] != '}'
    decreases j
  {
    match j
    case Null => "null"
    case Bool(b) => if b then "true" else "false"
    case Number(n) => NumberText(n)
    case Str(s) => Quote(s)
    case Array(items) => "[" + SerializeItems(items) + "]"
    case Object(members) => "{" + SerializeMembers(members) + "}"
  }

  function SerializeItems(items: seq<Json>): string
    decreases items
  {
    if |items| == 0 then ""
    else if |items| == 1 then Serialize(items[0])
    else Serialize(items[0]) + "," + SerializeItems(items[1..])
  }

  function SerializeMember(m: Member): string
    decreases m
  {
    Quote(m.name) + ":" + Serialize(m.value)
  }

  function SerializeMembers(members: seq<Member>): string
    decreases members
  {
    if |members| == 0 then ""
    else if |members| == 1 then SerializeMember(members[0])
    else SerializeMember(members[0]) + "," + SerializeMembers(members[1..])
  }

  // ---------------------------------------------------------------------------
  // Parsing (`serde_json::from_str`)

  function ParseWord(s: string, word: string, j: Json): (r: Result<Parsed<Json>, MutinyError>)
    requires |word| > 0
    ensures r.Success? ==> |r.value.rest| < |s|
  {
    if |word| <= |s| && s[..|word|] == word then Success(Parsed(j, s[|word|..]))
    else Failure(SerdeError)
  }

  function ParseNat(s: string): (r: Result<Parsed<nat>, MutinyError>)
    ensures r.Success? ==> |r.value.rest| < |s|
  {
    var n := DigitSpan(s);
    if n == 0 then Failure(SerdeError) else Success(Parsed(DigitsValue(s[..n]), s[n..]))
  }

  function ParseNumber(s: string): (r: Result<Parsed<Json>, MutinyError>)
    ensures r.Success? ==> |r.value.rest| < |s|
  {
    if |s| > 0 && s[0] == '-' then
      var p :- ParseNat(s[1..]);
      var magnitude: int := p.value;
      Success(Parsed(Number(-magnitude), p.rest))
    else
      var p :- ParseNat(s);
      Success(Parsed(Number(p.value), p.rest))
  }

  /** The characters of a string literal after its opening quote, up to and
      including the closing quote. */
  function ParseStringBody(s: string): (r: Result<Parsed<string>, MutinyError>)
    ensures r.Success? ==> |r.value.rest| < |s|
  {
    if |s| == 0 then Failure(SerdeError)
    else if s[0] == '"' then Success(Parsed("", s[1..]))
    else if s[0] == '\\' then
      if |s| < 2 then Failure(SerdeError)
      else
        var p :- ParseStringBody(s[2..]);
        Success(Parsed([s[1]] + p.value, p.rest))
    else
      var p :- ParseStringBody(s[1..]);
      Success(Parsed([s[0]] + p.value, p.rest))
  }

  function ParseString(s: string): (r: Result<Parsed<string>, MutinyError>)
    ensures r.Success? ==> |r.value.rest| < |s|
  {
    if |s| > 0 && s[0] == '"' then ParseStringBody(s[1..]) else Failure(SerdeError)
  }

  /** One document at the front of `s`. */
  function ParseValue(s: string): (r: Result<Parsed<Json>, MutinyError>)
    ensures r.Success? ==> |r.value.rest| < |s|
    decreases |s|, 0
  {
    if |s| == 0 then Failure(SerdeError)
    else if s[0] == 'n' then ParseWord(s, "null", Null)
    else if s[0] == 't' then ParseWord(s, "true", Bool(true))
    else if s[0] == 'f' then ParseWord(s, "false", Bool(false))
    else if s[0] == '"' then ParseStr(s)
    else if s[0] == '-' || IsDigit(s[0]) then ParseNumber(s)
    else if s[0] == '[' then ParseArray(s[1..])
    else if s[0] == '{' then ParseObject(s[1..])
    else Failure(SerdeError)
  }

  function ParseStr(s: string): (r: Result<Parsed<Json>, MutinyError>)
    ensures r.Success? ==> |r.value.rest| < |s|
  {
    var p :- ParseString(s);
    Success(Parsed(Str(p.value), p.rest))
  }

  /** An array after its `[`. */
  function ParseArray(s: string): (r: Result<Parsed<Json>, MutinyError>)
    ensures r.Success? ==> |r.value.rest| < |s|
    decreases |s|, 2
  {
    if |s| > 0 && s[0] == ']' then Success(Parsed(Array([]), s[1..]))
    else
      var p :- ParseElements(s);
      Success(Parsed(Array(p.value), p.rest))
  }

  /** An object after its `{`. */
  function ParseObject(s: string): (r: Result<Parsed<Json>, MutinyError>)
    ensures r.Success? ==> |r.value.rest| < |s|
    decreases |s|, 3
  {
    if |s| > 0 && s[0] == '}' then Success(Parsed(Object([]), s[1..]))
    else
      var p :- ParseMembers(s);
      Success(Parsed(Object(p.value), p.rest))
  }

  /** The elements of a non-empty array after its `[`, up to and including the `]`. */
  function ParseElements(s: string): (r: Result<Parsed<seq<Json>>, MutinyError>)
    ensures r.Success? ==> |r.value.rest| < |s|
    decreases |s|, 1
  {
    var first :- ParseValue(s);
    var t := first.rest;
    if |t| > 0 && t[0] == ']' then Success(Parsed([first.value], t[1..]))
    else if |t| > 0 && t[0] == ',' then
      var more :- ParseElements(t[1..]);
      Success(Parsed([first.value] + more.value, more.rest))
    else Failure(SerdeError)
  }

  function ParseMember(s: string): (r: Result<Parsed<Member>, MutinyError>)
    ensures r.Success? ==> |r.value.rest| < |s|
    decreases |s|, 1
  {
    var name :- ParseString(s);
    var t := name.rest;
    if |t| > 0 && t[0] == ':' then
      var v :- ParseValue(t[1..]);
      Success(Parsed(Member(name.value, v.value), v.rest))
    else Failure(SerdeError)
  }

  /** The members of a non-empty object after its `{`, up to and including the `}`. */
  function ParseMembers(s: string): (r: Result<Parsed<seq<Member>>, MutinyError>)
    ensures r.Success? ==> |r.value.rest| < |s|
    decreases |s|, 2
  {
    var first :- ParseMember(s);
    var t := first.rest;
    if |t| > 0 && t[0] == '}' then Success(Parsed([first.value], t[1..]))
    else if |t| > 0 && t[0] == ',' then
      var more :- ParseMembers(t[1..]);
      Success(Parsed([first.value] + more.value, more.rest))
    else Failure(SerdeError)
  }

  /** `serde_json::from_str`: the whole text must be exactly one document. */
  function Parse(s: string): Result<Json, MutinyError> {
    var p :- ParseValue(s);
    if |p.rest| == 0 then Success(p.value) else Failure(SerdeError)
  }

  // ---------------------------------------------------------------------------
  // Round trip

  /** Texts that may follow a document inside a larger text. */
  predicate Delimited(rest: string) {
    |rest| == 0 || rest[0] == ',' || rest[0] == ']' || rest[0] == '}'
  }

  lemma {:induction false} DigitsValueOfNatText(n: nat)
    ensures DigitsValue(NatText(n)) == n
    decreases n
  {
    if n >= 10 {
      DigitsValueOfNatText(n / 10);
      var t := NatText(n);
      assert t[..|t| - 1] == NatText(n / 10);
      assert t[|t| - 1] == DigitChar(n % 10);
    }
  }

  lemma ParseNatText(n: nat, rest: string)
    requires |rest| == 0 || !IsDigit(rest[0])
    ensures ParseNat(NatText(n) + rest) == Success(Parsed(n, rest))
  {
    var d := NatText(n);
    var s := d + rest;
    assert forall i :: 0 <= i < |d| ==> s[i] == d[i];
    if |rest| > 0 {
      assert s[|d|] == rest[0];
    }
    assert DigitSpan(s) == |d|;
    assert s[..|d|] == d;
    assert s[|d|..] == rest;
    DigitsValueOfNatText(n);
  }

  lemma {:induction false} ParseStringBodyEscape(s: string, rest: string)
    ensures ParseStringBody(Escape(s) + "\"" + rest) == Success(Parsed(s, rest))
    decreases |s|
  {
    var t := Escape(s) + "\"" + rest;
    if |s| == 0 {
      assert t == "\"" + rest;
      assert t[1..] == rest;
    } else {
      var tail := Escape(s[1..]) + "\"" + rest;
      ParseStringBodyEscape(s[1..], rest);
      assert t == EscapeChar(s[0]) + tail;
      if s[0] == '"' || s[0] == '\\' {
        assert t[0] == '\\' && t[1] == s[0] && t[2..] == tail;
      } else {
        assert t[0] == s[0] && t[1..] == tail;
      }
      assert [s[0]] + s[1..] == s;
    }
  }

  /** A string literal parses back to the string it quotes, whatever follows it. */
  lemma ParseStringQuote(s: string, rest: string)
    ensures ParseString(Quote(s) + rest) == Success(Parsed(s, rest))
  {
    var t := Quote(s) + rest;
    ParseStringBodyEscape(s, rest);
    assert t[1..] == Escape(s) + "\"" + rest;
  }

  lemma ParseValueOfNumber(s: string)
    requires |s| > 0 && (s[0] == '-' || IsDigit(s[0]))
    ensures ParseValue(s) == ParseNumber(s)
  {
    assert s[0] != 'n' && s[0] != 't' && s[0] != 'f' && s[0] != '"';
  }

  lemma ParseValueOfArray(s: string)
    requires |s| > 0 && s[0] == '['
    ensures ParseValue(s) == ParseArray(s[1..])
  {
  }

  lemma ParseValueOfObject(s: string)
    requires |s| > 0 && s[0] == '{'
    ensures ParseValue(s) == ParseObject(s[1..])
  {
  }

  lemma ParseNegative(s: string, n: nat, rest: string)
    requires |s| > 0 && s[0] == '-' && ParseNat(s[1..]) == Success(Parsed(n, rest))
    ensures ParseNumber(s) == Success(Parsed(Number(-(n as int)), rest))
  {
  }

  lemma ParseNonNegative(s: string, n: nat, rest: string)
    requires |s| > 0 && s[0] != '-' && ParseNat(s) == Success(Parsed(n, rest))
    ensures ParseNumber(s) == Success(Parsed(Number(n), rest))
  {
  }

  lemma ParseNumberText(n: int, rest: string)
    requires Delimited(rest)
    ensures ParseValue(NumberText(n) + rest) == Success(Parsed(Number(n), rest))
  {
    if n < 0 {
      assert NumberText(n) + rest == "-" + (NatText(-n) + rest);
      ParseNegativeText(-n, rest);
    } else {
      ParseNonNegativeText(n, rest);
    }
  }

  lemma ParseNegativeText(m: nat, rest: string)
    requires Delimited(rest)
    ensures ParseValue("-" + (NatText(m) + rest)) == Success(Parsed(Number(-(m as int)), rest))
  {
    var s := "-" + (NatText(m) + rest);
    assert s[0] == '-' && s[1..] == NatText(m) + rest;
    ParseValueOfNumber(s);
    ParseNatText(m, rest);
    ParseNegative(s, m, rest);
  }

  lemma ParseNonNegativeText(n: nat, rest: string)
    requires Delimited(rest)
    ensures ParseValue(NatText(n) + rest) == Success(Parsed(Number(n), rest))
  {
    var s := NatText(n) + rest;
    assert s[0] == NatText(n)[0];
    ParseValueOfNumber(s);
    ParseNatText(n, rest);
    ParseNonNegative(s, n, rest);
  }

  lemma ParseWordText(word: string, j: Json, rest: string)
    requires |word| > 0
    ensures ParseWord(word + rest, word, j) == Success(Parsed(j, rest))
  {
    var s := word + rest;
    assert s[..|word|] == word && s[|word|..] == rest;
  }

  lemma {:induction false} ParseSerialize(j: Json, rest: string)
    requires Delimited(rest)
    ensures ParseValue(Serialize(j) + rest) == Success(Parsed(j, rest))
    decreases j
  {
    match j
    case Null =>
      ParseWordText("null", Null, rest);
    case Bool(b) =>
      if b {
        ParseWordText("true", Bool(true), rest);
      } else {
        ParseWordText("false", Bool(false), rest);
      }
    case Number(n) =>
      ParseNumberText(n, rest);
    case Str(x) =>
      ParseStringQuote(x, rest);
    case Array(items) =>
      ParseArraySerialize(items, rest);
    case Object(members) =>
      ParseObjectSerialize(members, rest);
  }

  lemma SerializeItemsStart(items: seq<Json>)
    requires |items| > 0
    ensures |SerializeItems(items)| > 0 && SerializeItems(items)[0] != ']'
  {
    var first := Serialize(items[0]);
    if |items| == 1 {
      assert SerializeItems(items) == first;
    } else {
      var tail := "," + SerializeItems(items[1..]);
      assert SerializeItems(items) == first + tail;
      assert (first + tail)[0] == first[0];
    }
  }

  lemma SerializeMembersStart(members: seq<Member>)
    requires |members| > 0
    ensures |SerializeMembers(members)| > 0 && SerializeMembers(members)[0] == '"'
  {
    var first := SerializeMember(members[0]);
    assert first == Quote(members[0].name) + (":" + Serialize(members[0].value));
    if |members| > 1 {
      assert SerializeMembers(members) == first + ("," + SerializeMembers(members[1..]));
    }
  }

  lemma {:induction false} ParseArraySerialize(items: seq<Json>, rest: string)
    requires Delimited(rest)
    ensures ParseValue(Serialize(Array(items)) + rest) == Success(Parsed(Array(items), rest))
    decreases items, 2
  {
    var s := Serialize(Array(items)) + rest;
    var t := SerializeItems(items) + "]" + rest;
    assert s == "[" + t;
    assert s[0] == '[' && s[1..] == t;
    ParseValueOfArray(s);
    ParseArrayBody(items, rest);
  }

  /** The text of an array after its `[` parses back to the array. */
  lemma {:induction false} ParseArrayBody(items: seq<Json>, rest: string)
    ensures ParseArray(SerializeItems(items) + "]" + rest) == Success(Parsed(Array(items), rest))
    decreases items, 1
  {
    var t := SerializeItems(items) + "]" + rest;
    if |items| == 0 {
      assert t == "]" + rest;
      assert t[1..] == rest;
    } else {
      SerializeItemsStart(items);
      assert t[0] == SerializeItems(items)[0];
      ParseElementsSerialize(items, rest);
    }
  }

  lemma {:induction false} ParseObjectSerialize(members: seq<Member>, rest: string)
    requires Delimited(rest)
    ensures ParseValue(Serialize(Object(members)) + rest) == Success(Parsed(Object(members), rest))
    decreases members, 2
  {
    var s := Serialize(Object(members)) + rest;
    var t := SerializeMembers(members) + "}" + rest;
    assert s == "{" + t;
    assert s[0] == '{' && s[1..] == t;
    ParseValueOfObject(s);
    ParseObjectBody(members, rest);
  }

  /** The text of an object after its `{` parses back to the object. */
  lemma {:induction false} ParseObjectBody(members: seq<Member>, rest: string)
    ensures ParseObject(SerializeMembers(members) + "}" + rest) == Success(Parsed(Object(members), rest))
    decreases members, 1
  {
    var t := SerializeMembers(members) + "}" + rest;
    if |members| == 0 {
      assert t == "}" + rest;
      assert t[1..] == rest;
    } else {
      SerializeMembersStart(members);
      assert t[0] == SerializeMembers(members)[0];
      ParseMembersSerialize(members, rest);
    }
  }

  lemma ParseLastElement(s: string, j: Json, rest: string)
    requires ParseValue(s) == Success(Parsed(j, "]" + rest))
    ensures ParseElements(s) == Success(Parsed([j], rest))
  {
    assert ("]" + rest)[1..] == rest;
  }

  lemma ParseNextElement(s: string, j: Json, tail: string, more: seq<Json>, rest: string)
    requires ParseValue(s) == Success(Parsed(j, "," + tail))
    requires ParseElements(tail) == Success(Parsed(more, rest))
    ensures ParseElements(s) == Success(Parsed([j] + more, rest))
  {
    assert ("," + tail)[1..] == tail;
  }

  lemma {:induction false} ParseElementsSerialize(items: seq<Json>, rest: string)
    requires |items| > 0
    ensures ParseElements(SerializeItems(items) + "]" + rest) == Success(Parsed(items, rest))
    decreases items, 0
  {
    var s := SerializeItems(items) + "]" + rest;
    if |items| == 1 {
      assert s == Serialize(items[0]) + ("]" + rest);
      ParseSerialize(items[0], "]" + rest);
      ParseLastElement(s, items[0], rest);
      assert [items[0]] == items;
    } else {
      var tail := SerializeItems(items[1..]) + "]" + rest;
      assert s == Serialize(items[0]) + ("," + tail);
      ParseSerialize(items[0], "," + tail);
      ParseElementsSerialize(items[1..], rest);
      ParseNextElement(s, items[0], tail, items[1..], rest);
      assert [items[0]] + items[1..] == items;
    }
  }

  lemma {:induction false} ParseMemberSerialize(m: Member, rest: string)
    requires Delimited(rest)
    ensures ParseMember(SerializeMember(m) + rest) == Success(Parsed(m, rest))
    decreases m
  {
    var after := ":" + (Serialize(m.value) + rest);
    var s := SerializeMember(m) + rest;
    assert s == Quote(m.name) + after;
    ParseStringQuote(m.name, after);
    assert after[0] == ':' && after[1..] == Serialize(m.value) + rest;
    ParseSerialize(m.value, rest);
  }

  lemma ParseLastMember(s: string, m: Member, rest: string)
    requires ParseMember(s) == Success(Parsed(m, "}" + rest))
    ensures ParseMembers(s) == Success(Parsed([m], rest))
  {
    assert ("}" + rest)[1..] == rest;
  }

  lemma ParseNextMember(s: string, m: Member, tail: string, more: seq<Member>, rest: string)
    requires ParseMember(s) == Success(Parsed(m, "," + tail))
    requires ParseMembers(tail) == Success(Parsed(more, rest))
    ensures ParseMembers(s) == Success(Parsed([m] + more, rest))
  {
    assert ("," + tail)[1..] == tail;
  }

  lemma {:induction false} ParseMembersSerialize(members: seq<Member>, rest: string)
    requires |members| > 0
    ensures ParseMembers(SerializeMembers(members) + "}" + rest) == Success(Parsed(members, rest))
    decreases members, 0
  {
    var s := SerializeMembers(members) + "}" + rest;
    if |members| == 1 {
      assert s == SerializeMember(members[0]) + ("}" + rest);
      ParseMemberSerialize(members[0], "}" + rest);
      ParseLastMember(s, members[0], rest);
      assert [members[0]] == members;
    } else {
      var tail := SerializeMembers(members[1..]) + "}" + rest;
      assert s == SerializeMember(members[0]) + ("," + tail);
      ParseMemberSerialize(members[0], "," + tail);
      ParseMembersSerialize(members[1..], rest);
      ParseNextMember(s, members[0], tail, members[1..], rest);
      assert [members[0]] + members[1..] == members;
    }
  }

  /** Parsing the text of a document gives the document back. */
  lemma ParseInvertsSerialize(j: Json)
    ensures Parse(Serialize(j)) == Success(j)
  {
    ParseSerialize(j, "");
    assert Serialize(j) + "" == Serialize(j);
  }
}
