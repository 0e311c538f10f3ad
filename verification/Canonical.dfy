/** Canonical JSON: one encoding per value, from which the value can be read back. */
module Canonical {
  import opened Values
  import Text

  // ------------------------------------------------------------------- encoding

  function Digit(n: nat): char
    requires n < 10
  {
    '0' + n as char
  }

  function Digits(n: nat): string {
    if n < 10 then [Digit(n)] else Digits(n / 10) + [Digit(n % 10)]
  }

  /** `str(i)`. */
  function EncodeInt(i: int): string {
    if i < 0 then "-" + Digits(-i) else Digits(i)
  }

  function HexDigit(n: nat): char
    requires n < 16
  {
    if n < 10 then '0' + n as char else 'a' + (n - 10) as char
  }

  /** One character as `json.dumps` writes it without ASCII escaping. */
  function EscapeChar(c: char): string {
    if c == '"' then ['\\', '"']
    else if c == '\\' then ['\\', '\\']
    else if c as int == 8 then ['\\', 'b']
    else if c as int == 9 then ['\\', 't']
    else if c as int == 10 then ['\\', 'n']
    else if c as int == 12 then ['\\', 'f']
    else if c as int == 13 then ['\\', 'r']
    else if c as int < 32 then ['\\', 'u', '0', '0', HexDigit(c as int / 16), HexDigit(c as int % 16)]
    else [c]
  }

  function Escape(s: string): string {
    if s == "" then "" else EscapeChar(s[0]) + Escape(s[1..])
  }

  function EncodeString(s: string): string {
    ['"'] + Escape(s) + ['"']
  }

  function Encode(v: Value): string
    decreases v, 1, 0
  {
    match v
    case Null => "null"
    case Bool(b) => if b then "true" else "false"
    case Int(i) => EncodeInt(i)
    case Str(s) => EncodeString(s)
    case List(items) => "[" + EncodeItems(items) + "]"
    case Obj(m) => "{" + EncodeEntries(v, Text.Sorted(m.Keys)) + "}"
  }

  function EncodeItems(items: seq<Value>): string
    decreases items, 0, 0
  {
    if items == [] then ""
    else Encode(items[0]) + if |items| == 1 then "" else "," + EncodeItems(items[1..])
  }

  /** The entries of an object under the given keys, in that order. */
  function EncodeEntries(v: Value, keys: seq<string>): string
    requires v.Obj? && forall k :: k in keys ==> k in v.fields
    decreases v, 0, |keys|
  {
    if keys == [] then ""
    else EncodeString(keys[0]) + ":" + Encode(v.fields[keys[0]])
         + if |keys| == 1 then "" else "," + EncodeEntries(v, keys[1..])
  }

  // -------------------------------------------------------------------- reading

  predicate IsDigit(c: char) {
    '0' <= c <= '9'
  }

  function ReadDigits(acc: nat, s: string): (nat, string)
    decreases |s|
  {
    if s != "" && IsDigit(s[0]) then ReadDigits(10 * acc + (s[0] as int - '0' as int), s[1..]) else (acc, s)
  }

  function ReadHex(c: char): Option<nat> {
    if IsDigit(c) then Some(c as int - '0' as int)
    else if 'a' <= c <= 'f' then Some(c as int - 'a' as int + 10)
    else None
  }

  /** The character after a backslash, and what follows the escape. */
  function ReadEscape(s: string): Option<(char, string)> {
    if s == "" then None
    else if s[0] == '"' || s[0] == '\\' then Some((s[0], s[1..]))
    else if s[0] == 'b' then Some((8 as char, s[1..]))
    else if s[0] == 't' then Some((9 as char, s[1..]))
    else if s[0] == 'n' then Some((10 as char, s[1..]))
    else if s[0] == 'f' then Some((12 as char, s[1..]))
    else if s[0] == 'r' then Some((13 as char, s[1..]))
    else if s[0] == 'u' && |s| >= 5 && s[1] == '0' && s[2] == '0' && ReadHex(s[3]).Some? && ReadHex(s[4]).Some? then
      Some(((16 * ReadHex(s[3]).value + ReadHex(s[4]).value) as char, s[5..]))
    else None
  }

  /** A string's characters up to its closing quote. */
  function ReadString(s: string): (r: Option<(string, string)>)
    ensures r.Some? ==> |r.value.1| < |s|
  {
    if s == "" then None
    else if s[0] == '"' then Some(("", s[1..]))
    else if s[0] == '\\' then
      var escaped := ReadEscape(s[1..]);
      if escaped.None? then None
      else
        var rest := ReadString(escaped.value.1);
        if rest.None? then None else Some(([escaped.value.0] + rest.value.0, rest.value.1))
    else if s[0] as int < 32 then None
    else
      var rest := ReadString(s[1..]);
      if rest.None? then None else Some(([s[0]] + rest.value.0, rest.value.1))
  }

  /** What follows `word`, if `s` begins with it. */
  function After(s: string, word: string): Option<string> {
    if word <= s then Some(s[|word|..]) else None
  }

  function ReadInt(s: string): (r: Option<(Value, string)>)
    ensures r.Some? ==> |r.value.1| < |s|
  {
    if s != "" && IsDigit(s[0]) then
      var (n, rest) := ReadDigits(0, s);
      if |rest| < |s| then Some((Int(n), rest)) else None
    else if |s| > 1 && s[0] == '-' && IsDigit(s[1]) then
      var (n, rest) := ReadDigits(0, s[1..]);
      var magnitude: int := n;
      if |rest| < |s| then Some((Int(-magnitude), rest)) else None
    else None
  }

  function ReadWord(s: string, word: string, v: Value): (r: Option<(Value, string)>)
    requires word != ""
    ensures r.Some? ==> |r.value.1| < |s|
  {
    if After(s, word).Some? then Some((v, After(s, word).value)) else None
  }

  /** One value and what follows it. Reading is `strict` when the keys of every object must stand in ascending order. */
  function Read(s: string, strict: bool): (r: Option<(Value, string)>)
    ensures r.Some? ==> |r.value.1| < |s|
    decreases |s|, 1
  {
    if s == "" then None
    else if s[0] == 'n' then ReadWord(s, "null", Null)
    else if s[0] == 't' then ReadWord(s, "true", Bool(true))
    else if s[0] == 'f' then ReadWord(s, "false", Bool(false))
    else if s[0] == '"' then
      var text := ReadString(s[1..]);
      if text.None? then None else Some((Str(text.value.0), text.value.1))
    else if s[0] == '[' then
      if |s| > 1 && s[1] == ']' then Some((List([]), s[2..]))
      else
        var items := ReadItems(s[1..], strict);
        if items.None? then None else Some((List(items.value.0), items.value.1))
    else if s[0] == '{' then
      if |s| > 1 && s[1] == '}' then Some((Obj(map[]), s[2..]))
      else
        var entries := ReadEntries(s[1..], strict, None);
        if entries.None? then None else Some((Obj(entries.value.0), entries.value.1))
    else ReadInt(s)
  }

  /** One or more items, and what follows the closing bracket. */
  function ReadItems(s: string, strict: bool): (r: Option<(seq<Value>, string)>)
    ensures r.Some? ==> |r.value.1| < |s|
    decreases |s|, 2
  {
    var first := Read(s, strict);
    if first.None? || first.value.1 == "" then None
    else if first.value.1[0] == ']' then Some(([first.value.0], first.value.1[1..]))
    else if first.value.1[0] == ',' then
      var rest := ReadItems(first.value.1[1..], strict);
      if rest.None? then None else Some(([first.value.0] + rest.value.0, rest.value.1))
    else None
  }

  function ReadEntry(s: string, strict: bool): (r: Option<((string, Value), string)>)
    ensures r.Some? ==> |r.value.1| < |s|
    decreases |s|, 2
  {
    if s == "" || s[0] != '"' then None
    else
      var key := ReadString(s[1..]);
      if key.None? || key.value.1 == "" || key.value.1[0] != ':' then None
      else
        var value := Read(key.value.1[1..], strict);
        if value.None? then None else Some(((key.value.0, value.value.0), value.value.1))
  }

  /** One or more entries, and what follows the closing brace; `last` is the key before them. */
  function ReadEntries(s: string, strict: bool, last: Option<string>): (r: Option<(map<string, Value>, string)>)
    ensures r.Some? ==> |r.value.1| < |s|
    decreases |s|, 3
  {
    var first := ReadEntry(s, strict);
    if first.None? || first.value.1 == "" then None
    else if strict && last.Some? && !Text.Less(last.value, first.value.0.0) then None
    else
      var ((key, value), tail) := first.value;
      if tail[0] == '}' then Some((map[key := value], tail[1..]))
      else if tail[0] == ',' then
        var rest := ReadEntries(tail[1..], strict, Some(key));
        if rest.None? then None else Some((rest.value.0[key := value], rest.value.1))
      else None
  }

  // ----------------------------------------------------------------- round trip

  lemma {:induction false} DigitsRead(n: nat, rest: string)
    ensures ReadDigits(0, Digits(n) + rest) == ReadDigits(n, rest)
  {
    if n < 10 {
      assert (Digits(n) + rest)[1..] == rest;
    } else {
      var last := [Digit(n % 10)];
      DigitsRead(n / 10, last + rest);
      assert Digits(n) + rest == Digits(n / 10) + (last + rest);
      assert (last + rest)[1..] == rest;
    }
  }

  lemma {:induction false} DigitsStart(n: nat)
    ensures Digits(n) != "" && IsDigit(Digits(n)[0])
  {
    if n >= 10 { DigitsStart(n / 10); }
  }

  /** `rest` does not continue a number. */
  predicate EndsNumber(rest: string) {
    rest == "" || !IsDigit(rest[0])
  }

  lemma IntRead(i: int, rest: string)
    requires EndsNumber(rest)
    ensures ReadInt(EncodeInt(i) + rest) == Some((Int(i), rest))
    ensures EncodeInt(i) != "" && (EncodeInt(i)[0] == '-' || IsDigit(EncodeInt(i)[0]))
  {
    hide Digits;
    var n := if i < 0 then -i else i;
    DigitsStart(n);
    DigitsRead(n, rest);
    if i < 0 {
      assert (EncodeInt(i) + rest)[1..] == Digits(n) + rest;
      assert (EncodeInt(i) + rest)[1] == Digits(n)[0];
    }
  }

  lemma EscapeRead(c: char, rest: string)
    requires |EscapeChar(c)| > 1
    ensures EscapeChar(c)[0] == '\\' && ReadEscape(EscapeChar(c)[1..] + rest) == Some((c, rest))
  {
    var tail := EscapeChar(c)[1..] + rest;
    if tail[0] == 'u' {
      assert tail[5..] == rest;
      HexRead(c as int / 16);
      HexRead(c as int % 16);
    } else {
      assert tail[1..] == rest;
    }
  }

  lemma HexRead(n: nat)
    requires n < 16
    ensures ReadHex(HexDigit(n)) == Some(n)
  {}

  lemma PlainChar(c: char)
    ensures |EscapeChar(c)| == 1 ==> EscapeChar(c) == [c] && c != '"' && c != '\\' && c as int >= 32
    ensures |EscapeChar(c)| >= 1
  {}

  lemma {:induction false} StringRead(s: string, rest: string)
    ensures ReadString(Escape(s) + ['"'] + rest) == Some((s, rest))
  {
    hide EscapeChar, ReadEscape;
    if s != "" {
      var tail := Escape(s[1..]) + ['"'] + rest;
      var whole := Escape(s) + ['"'] + rest;
      StringRead(s[1..], rest);
      PlainChar(s[0]);
      assert whole == EscapeChar(s[0]) + tail;
      assert s == [s[0]] + s[1..];
      if |EscapeChar(s[0])| == 1 {
        assert whole[1..] == tail;
      } else {
        EscapeRead(s[0], tail);
        assert whole[1..] == EscapeChar(s[0])[1..] + tail;
      }
    } else {
      assert (Escape(s) + ['"'] + rest)[1..] == rest;
    }
  }

  lemma TextRead(s: string, rest: string)
    ensures |EncodeString(s)| > 0
    ensures (EncodeString(s) + rest)[0] == '"' && ReadString((EncodeString(s) + rest)[1..]) == Some((s, rest))
  {
    StringRead(s, rest);
    assert (EncodeString(s) + rest)[1..] == Escape(s) + ['"'] + rest;
  }

  lemma WordRead(word: string, rest: string)
    ensures After(word + rest, word) == Some(rest)
  {
    assert (word + rest)[|word|..] == rest;
  }

  /** What an encoded value begins with tells what it is, and never closes a list or object. */
  lemma EncodeStart(v: Value)
    ensures Encode(v) != "" && Encode(v)[0] != ']' && Encode(v)[0] != '}'
    ensures v.Int? ==> Encode(v)[0] == '-' || IsDigit(Encode(v)[0])
  {
    if v.Int? { IntRead(v.i, ""); }
  }

  lemma StrRead(text: string, rest: string, strict: bool)
    ensures Read(EncodeString(text) + rest, strict) == Some((Str(text), rest))
  {
    hide EncodeString, ReadString;
    TextRead(text, rest);
  }

  lemma WordsRead(v: Value, rest: string, strict: bool)
    requires v.Null? || v.Bool?
    ensures Read(Encode(v) + rest, strict) == Some((v, rest))
  {
    WordRead("null", rest);
    WordRead("true", rest);
    WordRead("false", rest);
  }

  lemma NumberRead(i: int, rest: string, strict: bool)
    requires EndsNumber(rest)
    ensures Read(EncodeInt(i) + rest, strict) == Some((Int(i), rest))
  {
    hide EncodeInt, ReadInt;
    IntRead(i, rest);
  }

  /** What an opening bracket or brace makes of a text that does not close at once. */
  lemma Opened(s: string, strict: bool)
    requires |s| > 1
    ensures s[0] == '[' && s[1] != ']' && ReadItems(s[1..], strict).Some? ==>
              Read(s, strict) == Some((List(ReadItems(s[1..], strict).value.0), ReadItems(s[1..], strict).value.1))
    ensures s[0] == '{' && s[1] != '}' && ReadEntries(s[1..], strict, None).Some? ==>
              Read(s, strict) == Some((Obj(ReadEntries(s[1..], strict, None).value.0), ReadEntries(s[1..], strict, None).value.1))
    ensures s[0] == '[' && s[1] == ']' ==> Read(s, strict) == Some((List([]), s[2..]))
    ensures s[0] == '{' && s[1] == '}' ==> Read(s, strict) == Some((Obj(map[]), s[2..]))
  {
    hide ReadItems, ReadEntries, ReadString, ReadInt, ReadWord;
  }

  lemma {:induction false} ListRead(items: seq<Value>, rest: string, strict: bool)
    ensures Read("[" + EncodeItems(items) + "]" + rest, strict) == Some((List(items), rest))
    decreases items, 1, 0
  {
    hide EncodeItems, ReadItems, Read;
    var s := "[" + EncodeItems(items) + "]" + rest;
    if items == [] {
      NoItems();
      assert s == "[]" + rest && s[2..] == rest;
      Opened(s, strict);
    } else {
      ItemsRead(items, rest, strict);
      ItemsStart(items);
      assert s[1..] == EncodeItems(items) + "]" + rest && s[1] == EncodeItems(items)[0];
      Opened(s, strict);
    }
  }

  lemma NoItems()
    ensures EncodeItems([]) == ""
  {}

  lemma {:induction false} ObjRead(v: Value, rest: string, strict: bool)
    requires v.Obj?
    ensures Read("{" + EncodeEntries(v, Text.Sorted(v.fields.Keys)) + "}" + rest, strict) == Some((v, rest))
    decreases v, 1, 0
  {
    hide EncodeEntries, ReadEntries, Read, Text.Sorted;
    var keys := Text.Sorted(v.fields.Keys);
    var s := "{" + EncodeEntries(v, keys) + "}" + rest;
    if keys == [] {
      NoKeys(v);
      assert s == "{}" + rest && s[2..] == rest;
      Opened(s, strict);
    } else {
      Text.SortedAscends(v.fields.Keys);
      EntriesRead(v, keys, rest, strict, None);
      EntriesStart(v, keys);
      AllKeys(v.fields);
      assert s[1..] == EncodeEntries(v, keys) + "}" + rest && s[1] == EncodeEntries(v, keys)[0];
      Opened(s, strict);
    }
  }

  lemma NoKeys(v: Value)
    requires v.Obj? && Text.Sorted(v.fields.Keys) == []
    ensures v == Obj(map[]) && EncodeEntries(v, []) == ""
  {
    assert |v.fields.Keys| == 0;
  }

  /** Main result: reading back an encoded value gives the value and leaves what follows it. */
  lemma {:induction false} RoundTrip(v: Value, rest: string, strict: bool)
    requires EndsNumber(rest)
    ensures Read(Encode(v) + rest, strict) == Some((v, rest))
    decreases v, 2, 0
  {
    hide EncodeString, EncodeInt, Read, EncodeItems, EncodeEntries;
    match v
    case Int(i) => NumberRead(i, rest, strict);
    case Str(text) => StrRead(text, rest, strict);
    case List(items) => ListRead(items, rest, strict);
    case Obj(_) => ObjRead(v, rest, strict);
    case _ => WordsRead(v, rest, strict);
  }

  function Restricted(m: map<string, Value>, keys: seq<string>): map<string, Value> {
    map k | k in m && k in keys :: m[k]
  }

  lemma AllKeys(m: map<string, Value>)
    ensures Restricted(m, Text.Sorted(m.Keys)) == m
  {}

  lemma ItemsStart(items: seq<Value>)
    requires items != []
    ensures EncodeItems(items) != "" && EncodeItems(items)[0] != ']'
  {
    EncodeStart(items[0]);
  }

  lemma EntriesStart(v: Value, keys: seq<string>)
    requires v.Obj? && keys != [] && forall k :: k in keys ==> k in v.fields
    ensures EncodeEntries(v, keys) != "" && EncodeEntries(v, keys)[0] == '"'
  {}

  lemma {:induction false} ItemsRead(items: seq<Value>, rest: string, strict: bool)
    requires items != []
    ensures ReadItems(EncodeItems(items) + "]" + rest, strict) == Some((items, rest))
    decreases items, 0, 0
  {
    hide Encode;
    var s := EncodeItems(items) + "]" + rest;
    if |items| == 1 {
      RoundTrip(items[0], "]" + rest, strict);
      assert s == Encode(items[0]) + ("]" + rest);
      assert ("]" + rest)[1..] == rest && items == [items[0]];
    } else {
      var tail := EncodeItems(items[1..]) + "]" + rest;
      RoundTrip(items[0], "," + tail, strict);
      assert s == Encode(items[0]) + ("," + tail);
      assert ("," + tail)[1..] == tail && items == [items[0]] + items[1..];
      ItemsRead(items[1..], rest, strict);
    }
  }

  lemma {:induction false} EntryRead(v: Value, key: string, rest: string, strict: bool)
    requires v.Obj? && key in v.fields && EndsNumber(rest)
    ensures ReadEntry(EncodeString(key) + ":" + Encode(v.fields[key]) + rest, strict) == Some(((key, v.fields[key]), rest))
    decreases v, 0, 0
  {
    hide Encode, EncodeString, ReadString;
    var after := ":" + Encode(v.fields[key]) + rest;
    assert EncodeString(key) + ":" + Encode(v.fields[key]) + rest == EncodeString(key) + after;
    TextRead(key, after);
    assert after[1..] == Encode(v.fields[key]) + rest;
    RoundTrip(v.fields[key], rest, strict);
  }

  lemma {:induction false} EntriesRead(v: Value, keys: seq<string>, rest: string, strict: bool, last: Option<string>)
    requires v.Obj? && keys != [] && (forall k :: k in keys ==> k in v.fields)
    requires Text.Ascending(keys) && (last.Some? ==> Text.Less(last.value, keys[0]))
    ensures ReadEntries(EncodeEntries(v, keys) + "}" + rest, strict, last) == Some((Restricted(v.fields, keys), rest))
    decreases v, 0, |keys|
  {
    hide Encode, EncodeString, ReadEntry;
    var s := EncodeEntries(v, keys) + "}" + rest;
    var entry := EncodeString(keys[0]) + ":" + Encode(v.fields[keys[0]]);
    if |keys| == 1 {
      EntryRead(v, keys[0], "}" + rest, strict);
      assert s == entry + ("}" + rest) && ("}" + rest)[1..] == rest;
      assert Restricted(v.fields, keys) == map[keys[0] := v.fields[keys[0]]];
    } else {
      var tail := EncodeEntries(v, keys[1..]) + "}" + rest;
      EntryRead(v, keys[0], "," + tail, strict);
      assert s == entry + ("," + tail) && ("," + tail)[1..] == tail;
      Text.AscendingDistinct(keys);
      EntriesRead(v, keys[1..], rest, strict, Some(keys[0]));
      assert Restricted(v.fields, keys) == Restricted(v.fields, keys[1..])[keys[0] := v.fields[keys[0]]];
    }
  }

  /** The whole text of a value, and nothing else, reads as that value. */
  function Decode(s: string, strict: bool): Option<Value> {
    var r := Read(s, strict);
    if r.Some? && r.value.1 == "" then Some(r.value.0) else None
  }

  /** Main result: distinct values have distinct encodings, so a hash of the encoding is one of the value. */
  lemma EncodeIsInjective(v: Value, w: Value)
    ensures Decode(Encode(v), false) == Some(v) && Decode(Encode(v), true) == Some(v)
    ensures Encode(v) == Encode(w) ==> v == w
  {
    hide Encode, Read;
    RoundTrip(v, "", false);
    RoundTrip(v, "", true);
    RoundTrip(w, "", true);
    assert Encode(v) + "" == Encode(v) && Encode(w) + "" == Encode(w);
  }
}
