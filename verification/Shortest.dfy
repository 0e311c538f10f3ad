/** The canonical text of a value: the shortest JSON text that reads as it, and the only one that short whose keys
 * ascend.
 */
module Shortest {
  import opened Values
  import opened Canonical
  import Text

  // -------------------------------------------------------------------- strings

  lemma HexIsUnique(c: char)
    requires ReadHex(c).Some?
    ensures ReadHex(c).value < 16 && HexDigit(ReadHex(c).value) == c
  {}

  lemma EscapeIsShortest(s: string)
    requires ReadEscape(s).Some?
    ensures var (c, rest) := ReadEscape(s).value;
            |rest| < |s| && |EscapeChar(c)| <= 1 + |s| - |rest| &&
                (|EscapeChar(c)| == 1 + |s| - |rest| ==> ['\\'] + s == EscapeChar(c) + rest)
  {
    var (c, rest) := ReadEscape(s).value;
    if s[0] == 'u' {
      HexIsUnique(s[3]);
      HexIsUnique(s[4]);
      assert s == [s[0], s[1], s[2], s[3], s[4]] + rest;
    } else {
      assert s == [s[0]] + rest;
    }
  }

  lemma {:induction false} TextIsShortest(s: string)
    requires ReadString(s).Some?
    ensures var (t, rest) := ReadString(s).value;
            |Escape(t)| + 1 <= |s| - |rest| && (|Escape(t)| + 1 == |s| - |rest| ==> s == Escape(t) + ['"'] + rest)
    decreases |s|
  {
    hide EscapeChar, ReadEscape;
    var (t, rest) := ReadString(s).value;
    assert s == [s[0]] + s[1..];
    if s[0] == '"' {
    } else if s[0] == '\\' {
      var (c, after) := ReadEscape(s[1..]).value;
      EscapeIsShortest(s[1..]);
      TextIsShortest(after);
      assert t[1..] == ReadString(after).value.0;
    } else {
      TextIsShortest(s[1..]);
      assert t[1..] == ReadString(s[1..]).value.0;
      assert EscapeChar(s[0]) == [s[0]] by { Plain(s[0]); }
    }
  }

  lemma Plain(c: char)
    requires c != '"' && c != '\\' && c as int >= 32
    ensures EscapeChar(c) == [c]
  {}

  // -------------------------------------------------------------------- numbers

  lemma {:induction false} DigitsContinue(acc: nat, s: string)
    requires acc > 0
    ensures var (n, rest) := ReadDigits(acc, s); n > 0 && Digits(n) + rest == Digits(acc) + s
    decreases |s|
  {
    if s != "" && IsDigit(s[0]) {
      var d := s[0] as int - '0' as int;
      DigitsContinue(10 * acc + d, s[1..]);
      assert (10 * acc + d) / 10 == acc && (10 * acc + d) % 10 == d;
      assert Digits(10 * acc + d) == Digits(acc) + [s[0]];
      assert Digits(acc) + s == Digits(acc) + [s[0]] + s[1..];
    }
  }

  /** Leading zeros only lengthen a number. */
  lemma {:induction false} DigitsAreShortest(s: string)
    requires s != "" && IsDigit(s[0])
    ensures var (n, rest) := ReadDigits(0, s);
            |Digits(n)| <= |s| - |rest| && (|Digits(n)| == |s| - |rest| ==> s == Digits(n) + rest)
    decreases |s|
  {
    var d := s[0] as int - '0' as int;
    assert s == [s[0]] + s[1..];
    if d > 0 {
      DigitsContinue(d, s[1..]);
      assert Digits(d) + s[1..] == s;
      var (n, rest) := ReadDigits(d, s[1..]);
      assert |Digits(n) + rest| == |s|;
    } else if |s| > 1 && IsDigit(s[1]) {
      DigitsAreShortest(s[1..]);
    }
  }

  lemma IntIsShortest(s: string)
    requires ReadInt(s).Some?
    ensures var (v, rest) := ReadInt(s).value;
            v.Int? && |EncodeInt(v.i)| <= |s| - |rest| && (|EncodeInt(v.i)| == |s| - |rest| ==> s == EncodeInt(v.i) + rest)
  {
    hide Digits, ReadDigits;
    if IsDigit(s[0]) {
      DigitsAreShortest(s);
      var (n, rest) := ReadDigits(0, s);
      assert ReadInt(s) == Some((Int(n), rest));
    } else {
      DigitsAreShortest(s[1..]);
      var (n, rest) := ReadDigits(0, s[1..]);
      assert s == "-" + s[1..];
      assert n > 0 ==> "-" + Digits(n) + rest == "-" + (Digits(n) + rest);
    }
  }

  // -------------------------------------------------------------------- objects

  /** What an entry takes in a text, with its colon and the comma or brace after it. */
  function Weight(key: string, v: Value): nat {
    |EncodeString(key)| + |Encode(v)| + 2
  }

  /** What all the entries take together, in whatever order. */
  ghost function Total(m: map<string, Value>): nat {
    if m == map[] then 0
    else
      var k :| k in m;
      Weight(k, m[k]) + Total(m - {k})
  }

  lemma {:induction false} TotalRemove(m: map<string, Value>, k: string)
    requires k in m
    ensures Total(m) == Weight(k, m[k]) + Total(m - {k})
  {
    hide Weight;
    var first: string :| first in m && Total(m) == Weight(first, m[first]) + Total(m - {first});
    if first != k {
      TotalRemove(m - {first}, k);
      TotalRemove(m - {k}, first);
      assert m - {first} - {k} == m - {k} - {first};
    }
  }

  lemma TotalAdd(m: map<string, Value>, k: string, v: Value)
    ensures Total(m[k := v]) <= Weight(k, v) + Total(m)
    ensures k !in m ==> Total(m[k := v]) == Weight(k, v) + Total(m)
  {
    hide Weight, Total;
    TotalRemove(m[k := v], k);
    if k in m {
      TotalRemove(m, k);
      assert m[k := v] - {k} == m - {k};
    } else {
      assert m[k := v] - {k} == m;
    }
  }

  lemma EntriesLength(v: Value, keys: seq<string>)
    requires v.Obj? && keys != [] && forall k :: k in keys ==> k in v.fields
    ensures |EncodeEntries(v, keys)| + 1 ==
            Weight(keys[0], v.fields[keys[0]]) + if |keys| == 1 then 0 else |EncodeEntries(v, keys[1..])| + 1
  {
    hide Encode, EncodeString;
  }

  lemma {:induction false} EntriesTake(v: Value, keys: seq<string>)
    requires v.Obj? && keys != [] && (forall k :: k in keys ==> k in v.fields) && Text.Ascending(keys)
    ensures |EncodeEntries(v, keys)| + 1 == Total(Restricted(v.fields, keys))
  {
    hide EncodeEntries, Weight, Total, Text.Less;
    Text.AscendingDistinct(keys);
    var m := Restricted(v.fields, keys);
    TotalRemove(m, keys[0]);
    EntriesLength(v, keys);
    if |keys| > 1 {
      EntriesTake(v, keys[1..]);
      assert m - {keys[0]} == Restricted(v.fields, keys[1..]);
    } else {
      assert m - {keys[0]} == map[];
      NothingTakesNothing();
    }
  }

  lemma NothingTakesNothing()
    ensures Total(map[]) == 0
  {}

  /** The length of an encoded object does not depend on the order of its keys. */
  lemma ObjectTakes(m: map<string, Value>)
    ensures |Encode(Obj(m))| == if m == map[] then 2 else 1 + Total(m)
  {
    hide Total;
    var keys := Text.Sorted(m.Keys);
    if m == map[] {
      assert keys == [];
    } else {
      assert |m.Keys| > 0;
      Text.SortedAscends(m.Keys);
      EntriesTake(Obj(m), keys);
      AllKeys(m);
    }
  }

  // ------------------------------------------------------------ keys as they stand

  /** A strict reading has its keys after the one before them. */
  lemma {:induction false} KeysFollow(s: string, last: string)
    requires ReadEntries(s, true, Some(last)).Some?
    ensures forall k :: k in ReadEntries(s, true, Some(last)).value.0 ==> Text.Less(last, k)
    decreases |s|
  {
    hide ReadEntry;
    var ((key, value), tail) := ReadEntry(s, true).value;
    if tail[0] == ',' {
      KeysFollow(tail[1..], key);
      var m := ReadEntries(tail[1..], true, Some(key)).value.0;
      forall k | k in m ensures Text.Less(last, k) { Text.LessTransitive(last, key, k); }
    }
  }

  lemma SortedFirst(ids: set<string>, k: string)
    requires k !in ids && forall x :: x in ids ==> Text.Less(k, x)
    ensures Text.Sorted(ids + {k}) == [k] + Text.Sorted(ids)
  {
    Text.LeastUnique(Text.Least(ids + {k}), k, ids + {k});
    assert ids + {k} - {k} == ids;
  }

  lemma {:induction false} EntriesAlike(v: Value, w: Value, keys: seq<string>)
    requires v.Obj? && w.Obj? && forall k :: k in keys ==> k in v.fields && k in w.fields && v.fields[k] == w.fields[k]
    ensures EncodeEntries(v, keys) == EncodeEntries(w, keys)
  {
    hide Encode, EncodeString;
    if keys != [] { EntriesAlike(v, w, keys[1..]); }
  }

  lemma EntriesStep(v: Value, keys: seq<string>)
    requires v.Obj? && |keys| > 1 && forall k :: k in keys ==> k in v.fields
    ensures EncodeEntries(v, keys) ==
            EncodeString(keys[0]) + ":" + Encode(v.fields[keys[0]]) + "," + EncodeEntries(v, keys[1..])
  {
    hide Encode, EncodeString;
  }

  /** The encoded entries of an object whose first key is `k`. */
  lemma EntriesFrom(m: map<string, Value>, k: string, v: Value)
    requires m != map[] && forall x :: x in m ==> Text.Less(k, x)
    ensures var all := Obj(m[k := v]);
            EncodeEntries(all, Text.Sorted(all.fields.Keys)) ==
            EncodeString(k) + ":" + Encode(v) + "," + EncodeEntries(Obj(m), Text.Sorted(m.Keys))
  {
    hide Encode, EncodeString, EncodeEntries, Text.Sorted, Text.Less;
    var all, keys := m[k := v], Text.Sorted(m.Keys);
    Text.LessIrreflexive(k);
    assert all.Keys == m.Keys + {k};
    SortedFirst(m.Keys, k);
    assert |m.Keys| > 0;
    assert ([k] + keys)[1..] == keys;
    EntriesStep(Obj(all), [k] + keys);
    EntriesAlike(Obj(all), Obj(m), keys);
  }

  // -------------------------------------------------------------------- shortest

  lemma WordIsShortest(s: string, word: string, v: Value)
    requires word != "" && Encode(v) == word && ReadWord(s, word, v).Some?
    ensures |word| == |s| - |ReadWord(s, word, v).value.1| && s == word + ReadWord(s, word, v).value.1
  {}

  /** What a value read leaves behind is at least as much as its encoding would, and no less only where the text is
   * the encoding.
   */
  ghost predicate AtLeast(encoding: string, s: string, rest: string, strict: bool) {
    |encoding| <= |s| - |rest| && (strict && |encoding| == |s| - |rest| ==> s == encoding + rest)
  }

  lemma {:induction false} ReadIsShortest(s: string, strict: bool)
    requires Read(s, strict).Some?
    ensures AtLeast(Encode(Read(s, strict).value.0), s, Read(s, strict).value.1, strict)
    decreases |s|, 1
  {
    hide ReadInt, ReadString, ReadWord, ReadItems, ReadEntries, Encode;
    assert s == [s[0]] + s[1..];
    if s[0] == 'n' || s[0] == 't' || s[0] == 'f' {
      WordsAreShortest(s, strict);
    } else if s[0] == '"' {
      TextIsShortest(s[1..]);
      StrEncoding(ReadString(s[1..]).value.0);
    } else if s[0] == '[' {
      ListIsShortest(s, strict);
    } else if s[0] == '{' {
      ObjIsShortest(s, strict);
    } else {
      IntIsShortest(s);
      IntEncoding(ReadInt(s).value.0.i);
    }
  }

  lemma IntEncoding(i: int)
    ensures Encode(Int(i)) == EncodeInt(i)
  {}

  lemma StrEncoding(t: string)
    ensures Encode(Str(t)) == ['"'] + Escape(t) + ['"']
  {}

  lemma WordsAreShortest(s: string, strict: bool)
    requires s != "" && (s[0] == 'n' || s[0] == 't' || s[0] == 'f') && Read(s, strict).Some?
    ensures AtLeast(Encode(Read(s, strict).value.0), s, Read(s, strict).value.1, strict)
  {
    if s[0] == 'n' { WordIsShortest(s, "null", Null); }
    else if s[0] == 't' { WordIsShortest(s, "true", Bool(true)); }
    else { WordIsShortest(s, "false", Bool(false)); }
  }

  lemma {:induction false} ListIsShortest(s: string, strict: bool)
    requires s != "" && s[0] == '[' && Read(s, strict).Some?
    ensures AtLeast(Encode(Read(s, strict).value.0), s, Read(s, strict).value.1, strict)
    decreases |s|, 0
  {
    hide ReadItems, EncodeItems;
    NoItems();
    if |s| > 1 && s[1] == ']' {
      assert s == "[]" + s[2..];
    } else {
      ItemsAreShortest(s[1..], strict);
      var (items, rest) := ReadItems(s[1..], strict).value;
      assert Encode(List(items)) == "[" + EncodeItems(items) + "]";
      assert s == "[" + s[1..];
    }
  }

  lemma {:induction false} ItemsAreShortest(s: string, strict: bool)
    requires ReadItems(s, strict).Some?
    ensures var (items, rest) := ReadItems(s, strict).value; AtLeast(EncodeItems(items) + "]", s, rest, strict)
    decreases |s|, 2
  {
    hide Read, Encode;
    ReadIsShortest(s, strict);
    var (first, tail) := Read(s, strict).value;
    assert tail == [tail[0]] + tail[1..];
    if tail[0] == ',' {
      ItemsAreShortest(tail[1..], strict);
      var (more, rest) := ReadItems(tail[1..], strict).value;
      ItemsNonEmpty(tail[1..], strict);
      assert ([first] + more)[1..] == more;
      assert EncodeItems([first] + more) + "]" == Encode(first) + ("," + (EncodeItems(more) + "]"));
    }
  }

  lemma ItemsNonEmpty(s: string, strict: bool)
    requires ReadItems(s, strict).Some?
    ensures ReadItems(s, strict).value.0 != []
  {}

  lemma {:induction false} ObjIsShortest(s: string, strict: bool)
    requires s != "" && s[0] == '{' && Read(s, strict).Some?
    ensures AtLeast(Encode(Read(s, strict).value.0), s, Read(s, strict).value.1, strict)
    decreases |s|, 0
  {
    hide Read, ReadEntries, EncodeEntries, Text.Sorted, Total;
    if |s| > 1 && s[1] == '}' {
      Opened(s, strict);
      NoKeys(Obj(map[]));
      assert s == "{}" + s[2..];
    } else {
      OpensEntries(s, strict);
      EntriesAreShortest(s[1..], strict, None);
      var (m, rest) := ReadEntries(s[1..], strict, None).value;
      ObjectTakes(m);
      assert s == "{" + s[1..];
    }
  }

  lemma OpensEntries(s: string, strict: bool)
    requires s != "" && s[0] == '{' && !(|s| > 1 && s[1] == '}') && Read(s, strict).Some?
    ensures ReadEntries(s[1..], strict, None).Some?
    ensures Read(s, strict) == Some((Obj(ReadEntries(s[1..], strict, None).value.0), ReadEntries(s[1..], strict, None).value.1))
  {
    hide ReadEntries;
  }

  lemma {:induction false} EntryIsShortest(s: string, strict: bool)
    requires ReadEntry(s, strict).Some?
    ensures var ((key, value), rest) := ReadEntry(s, strict).value;
            AtLeast(EncodeString(key) + ":" + Encode(value), s, rest, strict)
    decreases |s|, 2
  {
    hide Read, ReadString, Encode, Escape;
    TextIsShortest(s[1..]);
    var (key, after) := ReadString(s[1..]).value;
    ReadIsShortest(after[1..], strict);
    assert s == ['"'] + s[1..] && after == ":" + after[1..];
  }

  lemma {:induction false} EntriesAreShortest(s: string, strict: bool, last: Option<string>)
    requires ReadEntries(s, strict, last).Some?
    ensures var (m, rest) := ReadEntries(s, strict, last).value;
            m != map[] && Total(m) <= |s| - |rest| &&
            (strict && Total(m) == |s| - |rest| ==> s == EncodeEntries(Obj(m), Text.Sorted(m.Keys)) + "}" + rest)
    decreases |s|, 3
  {
    hide ReadEntry, Encode, EncodeString, Text.Sorted, Total, EncodeEntries;
    EntryIsShortest(s, strict);
    var ((key, value), tail) := ReadEntry(s, strict).value;
    var entry := EncodeString(key) + ":" + Encode(value);
    assert |entry| + 1 == Weight(key, value);
    assert tail == [tail[0]] + tail[1..];
    if tail[0] == ',' {
      EntriesAreShortest(tail[1..], strict, Some(key));
      var (m, rest) := ReadEntries(tail[1..], strict, Some(key)).value;
      TotalAdd(m, key, value);
      if strict {
        KeysFollow(tail[1..], key);
        EntriesFrom(m, key, value);
        Joined(entry, EncodeEntries(Obj(m), Text.Sorted(m.Keys)), rest);
      }
    } else {
      TotalAdd(map[], key, value);
      NothingTakesNothing();
      OneEntry(key, value);
    }
  }

  lemma Joined(entry: string, more: string, rest: string)
    ensures entry + "," + more + "}" + rest == entry + ("," + (more + "}" + rest))
  {}

  lemma OneEntry(key: string, value: Value)
    ensures EncodeEntries(Obj(map[key := value]), Text.Sorted(map[key := value].Keys)) == EncodeString(key) + ":" + Encode(value)
  {
    hide Encode, EncodeString;
    assert map[key := value].Keys == {key};
    Text.OneMember(key);
  }

  /** Main result: no text that reads as a value is shorter than its encoding, and one with ascending keys as short
   * is the encoding.
   */
  lemma EncodingIsShortest(s: string, v: Value, strict: bool)
    requires Decode(s, strict) == Some(v)
    ensures |Encode(v)| <= |s|
    ensures strict && |s| == |Encode(v)| ==> s == Encode(v)
  {
    hide Encode, Read;
    ReadIsShortest(s, strict);
    assert Encode(v) + "" == Encode(v);
  }

  /** Main result: the encoding of a value is, of the texts with ascending keys, the one no longer than any text that
   * reads as the value.
   */
  lemma CanonicalExactly(s: string, v: Value)
    ensures s == Encode(v) <==> Decode(s, true) == Some(v) && forall t :: Decode(t, false) == Some(v) ==> |s| <= |t|
  {
    hide Encode, Decode;
    EncodeIsInjective(v, v);
    forall t | Decode(t, false) == Some(v) ensures |Encode(v)| <= |t| { EncodingIsShortest(t, v, false); }
    if Decode(s, true) == Some(v) { EncodingIsShortest(s, v, true); }
  }
}
