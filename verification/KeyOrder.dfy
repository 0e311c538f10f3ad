/** Key order: insertion order never shows in an encoding, and what "sorted" means for the keys. */
module KeyOrder {
  import opened Values
  import opened Canonical
  import Text

  /** A value as Python holds it: a dict keeps the order its keys were inserted in. */
  datatype Doc =
    | Scalar(value: Value)
    | Array(items: seq<Doc>)
    | Dict(entries: seq<(string, Doc)>)

  function KeysOf(entries: seq<(string, Doc)>): set<string> {
    set i | 0 <= i < |entries| :: entries[i].0
  }

  /** Where a key sits. */
  function IndexOf(entries: seq<(string, Doc)>, key: string): (i: nat)
    requires key in KeysOf(entries)
    ensures i < |entries| && entries[i].0 == key
  {
    if entries[0].0 == key then 0
    else
      assert key in KeysOf(entries[1..]) by {
        var j :| 0 <= j < |entries| && entries[j].0 == key;
        assert entries[1..][j - 1].0 == key;
      }
      1 + IndexOf(entries[1..], key)
  }

  /** The value a document denotes, order forgotten. */
  function Meaning(d: Doc): Value
    decreases d
  {
    match d
    case Scalar(v) => v
    case Array(items) => List(seq(|items|, i requires 0 <= i < |items| => Meaning(items[i])))
    case Dict(entries) => Obj(map k | k in KeysOf(entries) :: Meaning(entries[IndexOf(entries, k)].1))
  }

  /** The encoder over documents: keys sorted, each looked up where it sits. */
  function EncodeDoc(d: Doc): string
    decreases d, 1, 0
  {
    match d
    case Scalar(v) => Encode(v)
    case Array(items) => "[" + EncodeDocs(items) + "]"
    case Dict(entries) => "{" + EncodeSorted(d, Text.Sorted(KeysOf(entries))) + "}"
  }

  function EncodeDocs(items: seq<Doc>): string
    decreases items, 0, 0
  {
    if items == [] then ""
    else EncodeDoc(items[0]) + if |items| == 1 then "" else "," + EncodeDocs(items[1..])
  }

  function EncodeSorted(d: Doc, keys: seq<string>): string
    requires d.Dict? && forall k :: k in keys ==> k in KeysOf(d.entries)
    decreases d, 0, |keys|
  {
    if keys == [] then ""
    else EncodeString(keys[0]) + ":" + EncodeDoc(d.entries[IndexOf(d.entries, keys[0])].1)
         + if |keys| == 1 then "" else "," + EncodeSorted(d, keys[1..])
  }

  lemma {:induction false} DocEncodesItsMeaning(d: Doc)
    ensures EncodeDoc(d) == Encode(Meaning(d))
    decreases d, 1, 0
  {
    match d
    case Scalar(_) =>
    case Array(items) => DocsEncode(items);
    case Dict(entries) =>
      assert Meaning(d).fields.Keys == KeysOf(entries);
      EntriesEncode(d, Text.Sorted(KeysOf(entries)));
  }

  function Meanings(items: seq<Doc>): seq<Value> {
    seq(|items|, i requires 0 <= i < |items| => Meaning(items[i]))
  }

  lemma {:induction false} DocsEncode(items: seq<Doc>)
    ensures EncodeDocs(items) == EncodeItems(Meanings(items))
    decreases items, 0, 0
  {
    if items != [] {
      DocEncodesItsMeaning(items[0]);
      DocsEncode(items[1..]);
      assert Meanings(items)[1..] == Meanings(items[1..]);
    }
  }

  lemma {:induction false} EntriesEncode(d: Doc, keys: seq<string>)
    requires d.Dict? && forall k :: k in keys ==> k in KeysOf(d.entries)
    ensures Meaning(d).Obj? && (forall k :: k in keys ==> k in Meaning(d).fields)
    ensures EncodeSorted(d, keys) == EncodeEntries(Meaning(d), keys)
    decreases d, 0, |keys|
  {
    assert Meaning(d).fields.Keys == KeysOf(d.entries);
    if keys != [] {
      DocEncodesItsMeaning(d.entries[IndexOf(d.entries, keys[0])].1);
      EntriesEncode(d, keys[1..]);
    }
  }

  /** Main result: two documents encode alike exactly when they denote the same value, whatever order their keys
   * were inserted in. */
  lemma EncodedAlikeExactly(d: Doc, e: Doc)
    ensures EncodeDoc(d) == EncodeDoc(e) <==> Meaning(d) == Meaning(e)
  {
    hide EncodeDoc, Encode, Meaning;
    DocEncodesItsMeaning(d);
    DocEncodesItsMeaning(e);
    EncodeIsInjective(Meaning(d), Meaning(e));
  }

  /** Inserting the same two entries in either order gives the same value. */
  lemma SwappedKeysMeanTheSame(k: string, x: Doc, l: string, y: Doc)
    requires k != l
    ensures EncodeDoc(Dict([(k, x), (l, y)])) == EncodeDoc(Dict([(l, y), (k, x)]))
  {
    var d, e := Dict([(k, x), (l, y)]), Dict([(l, y), (k, x)]);
    assert d.entries[0].0 == k && d.entries[1].0 == l && e.entries[0].0 == l && e.entries[1].0 == k;
    assert KeysOf(d.entries) == {k, l} == KeysOf(e.entries);
    assert Meaning(d).fields == Meaning(e).fields;
    EncodedAlikeExactly(d, e);
  }

  // --------------------------------------------- section 3.2.3 of RFC 8785

  /** A character's UTF-16 code units. */
  function Units(c: char): seq<int> {
    var n := c as int;
    if n < 0x10000 then [n] else [0xD800 + (n - 0x10000) / 0x400, 0xDC00 + (n - 0x10000) % 0x400]
  }

  function Utf16(s: string): seq<int> {
    if s == "" then [] else Units(s[0]) + Utf16(s[1..])
  }

  /** The order section 3.2.3 of RFC 8785 sorts keys by. */
  predicate UnitsLess(a: seq<int>, b: seq<int>) {
    b != [] && (a == [] || a[0] < b[0] || (a[0] == b[0] && UnitsLess(a[1..], b[1..])))
  }

  /** One character is supplementary, the other lies in the end of the basic plane, after the surrogates. */
  predicate Astride(c: char, d: char) {
    (c as int >= 0x10000 && 0xE000 <= d as int < 0x10000) || (d as int >= 0x10000 && 0xE000 <= c as int < 0x10000)
  }

  /** The keys first differ at such a pair. */
  ghost predicate FirstDifferAstride(a: string, b: string) {
    exists i :: 0 <= i < |a| && i < |b| && a[..i] == b[..i] && Astride(a[i], b[i])
  }

  /** How two characters' units compare when the characters differ. */
  lemma UnitsOfDifferent(c: char, d: char, x: seq<int>, y: seq<int>)
    requires c != d
    ensures UnitsLess(Units(c) + x, Units(d) + y) <==> (if Astride(c, d) then d < c else c < d)
  {
    var m, n := c as int, d as int;
    if m >= 0x10000 && n >= 0x10000 {
      assert (Units(c) + x)[1..][0] == Units(c)[1] && (Units(d) + y)[1..][0] == Units(d)[1];
      assert m == 0x10000 + (m - 0x10000) / 0x400 * 0x400 + (m - 0x10000) % 0x400;
      assert n == 0x10000 + (n - 0x10000) / 0x400 * 0x400 + (n - 0x10000) % 0x400;
    }
  }

  /** The same character in front changes nothing. */
  lemma UnitsOfSame(c: char, x: seq<int>, y: seq<int>)
    ensures UnitsLess(Units(c) + x, Units(c) + y) <==> UnitsLess(x, y)
  {
    var u := Units(c);
    assert (u + x)[1..] == u[1..] + x && (u + y)[1..] == u[1..] + y;
    if |u| == 2 { assert (u[1..] + x)[1..] == x && (u[1..] + y)[1..] == y; }
  }

  lemma AstrideStep(a: string, b: string)
    requires a != "" && b != ""
    ensures FirstDifferAstride(a, b) <==>
            if a[0] == b[0] then FirstDifferAstride(a[1..], b[1..]) else Astride(a[0], b[0])
  {
    var s, t := a[1..], b[1..];
    if i :| 0 <= i < |a| && i < |b| && a[..i] == b[..i] && Astride(a[i], b[i]) {
      if i > 0 {
        assert a[..i][0] == a[0] && b[..i][0] == b[0] && s[..i - 1] == a[..i][1..] && t[..i - 1] == b[..i][1..];
        assert s[i - 1] == a[i] && t[i - 1] == b[i];
      }
    }
    if a[0] == b[0] && FirstDifferAstride(s, t) {
      var i :| 0 <= i < |s| && i < |t| && s[..i] == t[..i] && Astride(s[i], t[i]);
      assert a[..i + 1] == [a[0]] + s[..i] && b[..i + 1] == [b[0]] + t[..i];
      assert a[i + 1] == s[i] && b[i + 1] == t[i];
    }
    if a[0] != b[0] && Astride(a[0], b[0]) { assert a[..0] == b[..0]; }
  }

  /** The code-point order and that of section 3.2.3 disagree on two keys exactly when the keys first differ astride. */
  lemma {:induction false} OrdersPartExactly(a: string, b: string)
    ensures (Text.Less(a, b) <==> UnitsLess(Utf16(a), Utf16(b))) <==> !FirstDifferAstride(a, b)
  {
    hide FirstDifferAstride, Astride, Units;
    if a != "" && b != "" {
      AstrideStep(a, b);
      if a[0] == b[0] {
        UnitsOfSame(a[0], Utf16(a[1..]), Utf16(b[1..]));
        OrdersPartExactly(a[1..], b[1..]);
      } else {
        UnitsOfDifferent(a[0], b[0], Utf16(a[1..]), Utf16(b[1..]));
      }
    } else {
      NeverAstride(a, b);
      UnitsNonEmpty(a, b);
    }
  }

  lemma NeverAstride(a: string, b: string)
    requires a == "" || b == ""
    ensures !FirstDifferAstride(a, b)
  {}

  lemma UnitsNonEmpty(a: string, b: string)
    requires a == "" || b == ""
    ensures UnitsLess(Utf16(a), Utf16(b)) <==> a == "" && b != ""
  {
    if b != "" { assert |Utf16(b)| > 0; }
  }

  /** A pair of keys on which they do: a supplementary character's surrogates sort before the end of the basic plane. */
  lemma OrdersPartBeyondIt()
    ensures Text.Less("\U{E000}", "\U{10000}") && UnitsLess(Utf16("\U{10000}"), Utf16("\U{E000}"))
    ensures FirstDifferAstride("\U{E000}", "\U{10000}")
  {
    assert Utf16("\U{E000}")[0] == 0xE000 && Utf16("\U{10000}")[0] == 0xD800;
    assert "\U{E000}"[..0] == "\U{10000}"[..0];
  }
}
