/** The coercion of a command's payload to UTF-8. */
module Utf8 {

  type byte = b: int | 0 <= b < 256

  // ---------------------------------------------------------------------------
  // UTF-8 by its grammar, section 4 of RFC 3629
  // ---------------------------------------------------------------------------

  predicate Tail(s: seq<byte>, i: nat) {
    i < |s| && 0x80 <= s[i] <= 0xBF
  }

  /** The length of the character the bytes start with; 0 if there is none. */
  function CharLength(s: seq<byte>): (n: nat)
    ensures n <= 4 && n <= |s|
  {
    if s == [] then 0
    else if s[0] <= 0x7F then 1
    else if 0xC2 <= s[0] <= 0xDF && Tail(s, 1) then 2
    else if Tail(s, 1) && Tail(s, 2) && ThreeBytes(s[0], s[1]) then 3
    else if Tail(s, 1) && Tail(s, 2) && Tail(s, 3) && FourBytes(s[0], s[1]) then 4
    else 0
  }

  predicate ThreeBytes(a: byte, b: byte) {
    || (a == 0xE0 && 0xA0 <= b)
    || 0xE1 <= a <= 0xEC
    || (a == 0xED && b <= 0x9F)
    || 0xEE <= a <= 0xEF
  }

  predicate FourBytes(a: byte, b: byte) {
    || (a == 0xF0 && 0x90 <= b)
    || 0xF1 <= a <= 0xF3
    || (a == 0xF4 && b <= 0x8F)
  }

  /** `valid_encoding?` of a string tagged UTF-8. */
  predicate Valid(s: seq<byte>)
    decreases |s|
  {
    s == [] || (CharLength(s) > 0 && Valid(s[CharLength(s)..]))
  }

  // ---------------------------------------------------------------------------
  // UTF-8 by its meaning, section 3 of RFC 3629
  // ---------------------------------------------------------------------------

  /** The characters: all code points but the surrogates. */
  type scalar = c: int | 0 <= c < 0xD800 || 0xE000 <= c <= 0x10FFFF

  function Encode(c: scalar): (s: seq<byte>)
    ensures 0 < |s| <= 4
  {
    if c < 0x80 then [c]
    else if c < 0x800 then [0xC0 + c / 64, 0x80 + c % 64]
    else if c < 0x10000 then [0xE0 + c / 4096, 0x80 + c / 64 % 64, 0x80 + c % 64]
    else [0xF0 + c / 262144, 0x80 + c / 4096 % 64, 0x80 + c / 64 % 64, 0x80 + c % 64]
  }

  function EncodeAll(cs: seq<scalar>): seq<byte> {
    if cs == [] then [] else Encode(cs[0]) + EncodeAll(cs[1..])
  }

  /** Whatever follows it, an encoded character is one of the grammar. */
  lemma EncodedIsChar(c: scalar, rest: seq<byte>)
    ensures CharLength(Encode(c) + rest) == |Encode(c)|
    ensures (Encode(c) + rest)[|Encode(c)|..] == rest
  {}

  /** A character of the grammar encodes a code point. */
  lemma CharIsEncoded(s: seq<byte>)
    requires CharLength(s) > 0
    ensures exists c: scalar :: Encode(c) == s[..CharLength(s)]
  {
    hide Encode, TwoByteChar, ThreeByteChar, FourByteChar;
    OneByte();
    var n := CharLength(s);
    if n == 1 {
      assert Encode(s[0]) == s[..1];
    } else if n == 2 {
      assert Encode(TwoByteChar(s[0], s[1])) == s[..2];
    } else if n == 3 {
      assert Encode(ThreeByteChar(s[0], s[1], s[2])) == s[..3];
    } else {
      assert Encode(FourByteChar(s[0], s[1], s[2], s[3])) == s[..4];
    }
  }

  lemma OneByte()
    ensures forall c: scalar :: c < 0x80 ==> Encode(c) == [c]
  {}

  function TwoByteChar(a: int, b: int): (c: scalar)
    requires 0xC2 <= a <= 0xDF && 0x80 <= b <= 0xBF
    ensures Encode(c) == [a, b]
  {
    (a - 0xC0) * 64 + (b - 0x80)
  }

  lemma Digits(a: nat, b: nat, c: nat, d: nat)
    requires b < 64 && c < 64 && d < 64
    ensures var r := a * 262144 + b * 4096 + c * 64 + d;
            r / 262144 == a && r / 4096 % 64 == b && r / 64 % 64 == c && r % 64 == d
  {
    var r := a * 262144 + b * 4096 + c * 64 + d;
    assert r / 64 == a * 4096 + b * 64 + c;
    assert r / 4096 == a * 64 + b;
  }

  function ThreeByteChar(a: int, b: int, c: int): (r: scalar)
    requires 0xE0 <= a <= 0xEF && 0x80 <= b <= 0xBF && 0x80 <= c <= 0xBF && ThreeBytes(a, b)
    ensures Encode(r) == [a, b, c]
  {
    Digits(0, a - 0xE0, b - 0x80, c - 0x80);
    (a - 0xE0) * 4096 + (b - 0x80) * 64 + (c - 0x80)
  }

  function FourByteChar(a: int, b: int, c: int, d: int): (r: scalar)
    requires 0xF0 <= a <= 0xF4 && 0x80 <= b <= 0xBF && 0x80 <= c <= 0xBF && 0x80 <= d <= 0xBF && FourBytes(a, b)
    ensures Encode(r) == [a, b, c, d]
  {
    Digits(a - 0xF0, b - 0x80, c - 0x80, d - 0x80);
    (a - 0xF0) * 262144 + (b - 0x80) * 4096 + (c - 0x80) * 64 + (d - 0x80)
  }

  /** The valid strings are the encodings of sequences of characters. */
  lemma {:induction false} ValidIsEncoded(s: seq<byte>)
    ensures Valid(s) <==> exists cs :: EncodeAll(cs) == s
  {
    if Valid(s) { EncodingOf(s); }
    forall cs | EncodeAll(cs) == s ensures Valid(s) { EncodedIsValid(cs); }
  }

  lemma {:induction false} EncodingOf(s: seq<byte>)
    requires Valid(s)
    ensures exists cs :: EncodeAll(cs) == s
    decreases |s|
  {
    hide CharLength, Encode;
    if s == [] {
      assert EncodeAll([]) == s;
    } else {
      var n := CharLength(s);
      CharIsEncoded(s);
      EncodingOf(s[n..]);
      var c: scalar :| Encode(c) == s[..n];
      var cs :| EncodeAll(cs) == s[n..];
      assert ([c] + cs)[1..] == cs;
      assert EncodeAll([c] + cs) == s[..n] + s[n..] == s;
    }
  }

  lemma {:induction false} EncodedIsValid(cs: seq<scalar>)
    ensures Valid(EncodeAll(cs))
    decreases |cs|
  {
    hide CharLength, Encode;
    if cs != [] {
      EncodedIsValid(cs[1..]);
      EncodedIsChar(cs[0], EncodeAll(cs[1..]));
    }
  }

  // ---------------------------------------------------------------------------
  // One string
  // ---------------------------------------------------------------------------

  /** A string is its bytes and an encoding tag: UTF-8, or another one in which the bytes
      below 0x80 are ASCII. */
  datatype Text = Text(bytes: seq<byte>, utf8: bool)

  predicate Ascii(s: seq<byte>) {
    forall i :: 0 <= i < |s| ==> s[i] < 0x80
  }

  const REPLACEMENT: scalar := 0xFFFD

  /** From US-ASCII to UTF-8, replacing every byte that is not ASCII. */
  function Replaced(s: seq<byte>): seq<byte> {
    if s == [] then [] else (if s[0] < 0x80 then [s[0]] else Encode(REPLACEMENT)) + Replaced(s[1..])
  }

  /** `coerce_to_utf8`. */
  function CoerceText(t: Text): (r: Text) {
    Text(if Valid(t.bytes) then t.bytes else Replaced(t.bytes), true)
  }

  /** Ruby's `==` of strings: the bytes agree, and so do the tags, unless all is ASCII. */
  predicate Same(a: Text, b: Text) {
    a.bytes == b.bytes && (a.utf8 == b.utf8 || Ascii(a.bytes))
  }

  /** Each byte becomes one character: itself, or the replacement. */
  function Characters(s: seq<byte>): (cs: seq<scalar>)
    ensures |cs| == |s|
  {
    seq(|s|, i requires 0 <= i < |s| => if s[i] < 0x80 then s[i] else REPLACEMENT)
  }

  lemma {:induction false} ReplacedIs(s: seq<byte>)
    ensures Replaced(s) == EncodeAll(Characters(s))
    decreases |s|
  {
    if s != [] {
      ReplacedIs(s[1..]);
      assert Characters(s)[1..] == Characters(s[1..]);
    }
  }

  lemma {:induction false} AsciiIsValid(s: seq<byte>)
    requires Ascii(s)
    ensures Valid(s)
    decreases |s|
  {
    if s != [] { AsciiIsValid(s[1..]); }
  }

  /** Exactly the strings without a byte above 127 stay as they are; any other gets longer. */
  lemma {:induction false} ReplacedLength(s: seq<byte>)
    ensures |s| <= |Replaced(s)| && (|Replaced(s)| == |s| <==> Ascii(s))
    ensures Ascii(s) ==> Replaced(s) == s
    decreases |s|
  {
    if s != [] {
      ReplacedLength(s[1..]);
      assert forall i :: 1 <= i < |s| ==> s[i] == s[1..][i - 1];
    }
  }

  /** The string loses something, or at least is no longer `==` to what it was. */
  predicate Lossy(t: Text) {
    !Valid(t.bytes) || (!t.utf8 && !Ascii(t.bytes))
  }

  /** The result is valid UTF-8, tagged so; a valid string keeps its bytes; and the
      comparison with the original tells exactly the lossy strings. */
  lemma {:induction false} TextCoerced(t: Text)
    ensures var r := CoerceText(t);
      && r.utf8 && Valid(r.bytes) && (Valid(t.bytes) ==> r.bytes == t.bytes)
      && (Same(r, t) <==> !Lossy(t))
  {
    hide Valid, Replaced, Ascii, Encode;
    if !Valid(t.bytes) {
      ReplacedIs(t.bytes);
      EncodedIsValid(Characters(t.bytes));
      ReplacedLength(t.bytes);
      if Ascii(t.bytes) { AsciiIsValid(t.bytes); }
    }
  }

  /** A byte that no character has comes back as the three bytes of U+FFFD. */
  lemma ReplacementExample()
    ensures CoerceText(Text([0x41, 0xFF, 0x42], true)) == Text([0x41, 0xEF, 0xBF, 0xBD, 0x42], true)
  {
    var s: seq<byte> := [0x41, 0xFF, 0x42];
    assert CharLength(s) == 1 && s[1..] == [0xFF, 0x42] && s[1..][1..] == [0x42] && s[1..][1..][1..] == [];
    assert CharLength([0xFF, 0x42]) == 0;
    assert !Valid(s);
    assert Replaced([0x42]) == [0x42] && Replaced([0xFF, 0x42]) == [0xEF, 0xBF, 0xBD, 0x42];
  }

  /** The bytes of an accented letter under another tag: nothing changes, yet it counts
      as lossy. */
  lemma OtherTagExample()
    ensures var t := Text([0xC3, 0xA9], false); CoerceText(t) == Text(t.bytes, true) && Lossy(t)
  {
    var s: seq<byte> := [0xC3, 0xA9];
    assert CharLength(s) == 2 && s[2..] == [];
    assert s[0] >= 0x80;
  }

  // ---------------------------------------------------------------------------
  // The payload
  // ---------------------------------------------------------------------------

  datatype Entry = Entry(key: Payload, value: Payload)

  /** A hash keeps its entries in order of insertion; keys may be anything. */
  datatype Payload = Str(text: Text) | Hash(entries: seq<Entry>) | Array(items: seq<Payload>) | Other(id: int)

  /** `memo[k] = v`: a key that is there keeps its place and gets the new value. */
  function Insert(es: seq<Entry>, k: Payload, v: Payload): (r: seq<Entry>) {
    if es == [] then [Entry(k, v)]
    else if es[0].key == k then [Entry(k, v)] + es[1..]
    else [es[0]] + Insert(es[1..], k, v)
  }

  function Size(p: Payload): nat {
    match p
    case Hash(es) => |es| + 1
    case _ => 0
  }

  function Coerced(p: Payload): (r: Payload)
    decreases p, Size(p)
  {
    match p
    case Str(t) => Str(CoerceText(t))
    case Hash(es) => Hash(CoercedEntries(p, |es|))
    case Array(items) => Array(seq(|items|, i requires 0 <= i < |items| => Coerced(items[i])))
    case Other(_) => p
  }

  /** The first `n` entries, inserted one after the other. */
  function CoercedEntries(p: Payload, n: nat): (r: seq<Entry>)
    requires p.Hash? && n <= |p.entries|
    decreases p, n
  {
    if n == 0 then []
    else Insert(CoercedEntries(p, n - 1), Coerced(p.entries[n - 1].key), Coerced(p.entries[n - 1].value))
  }

  /** The string is somewhere in the payload, as a value or in a key. */
  ghost predicate Occurs(t: Text, p: Payload)
    decreases p
  {
    match p
    case Str(u) => t == u
    case Hash(es) => exists i :: 0 <= i < |es| && (Occurs(t, es[i].key) || Occurs(t, es[i].value))
    case Array(items) => exists i :: 0 <= i < |items| && Occurs(t, items[i])
    case Other(_) => false
  }

  ghost predicate HasLossy(p: Payload) {
    exists t :: Occurs(t, p) && Lossy(t)
  }

  ghost predicate Clean(t: Text) {
    t.utf8 && Valid(t.bytes)
  }

  ghost predicate AllClean(p: Payload) {
    forall t :: Occurs(t, p) ==> Clean(t)
  }

  predicate DistinctKeys(es: seq<Entry>) {
    forall i, j :: 0 <= i < j < |es| ==> es[i].key != es[j].key
  }

  /** A hash has every key once, at every depth. */
  ghost predicate WellFormed(p: Payload)
    decreases p
  {
    match p
    case Hash(es) => DistinctKeys(es) && forall i :: 0 <= i < |es| ==> WellFormed(es[i].key) && WellFormed(es[i].value)
    case Array(items) => forall i :: 0 <= i < |items| ==> WellFormed(items[i])
    case _ => true
  }

  // ---------------------------------------------------------------------------
  // Hashes
  // ---------------------------------------------------------------------------

  /** The old entries but the one with the key, and the new one. */
  lemma {:induction false} InsertedIs(es: seq<Entry>, k: Payload, v: Payload)
    requires DistinctKeys(es)
    ensures var r := Insert(es, k, v);
      && DistinctKeys(r)
      && forall e :: e in r <==> e == Entry(k, v) || (e in es && e.key != k)
    decreases |es|
  {
    if es != [] {
      if es[0].key == k {
        assert forall e :: e in es <==> e == es[0] || e in es[1..];
        assert forall i :: 1 <= i < |es| ==> es[i] == es[1..][i - 1];
      } else {
        var tail := Insert(es[1..], k, v);
        InsertedIs(es[1..], k, v);
        assert forall e :: e in es <==> e == es[0] || e in es[1..];
        forall i | 0 <= i < |tail| ensures tail[i].key != es[0].key { assert tail[i] in tail; }
      }
    }
  }

  /** A key that is there keeps its place. */
  lemma {:induction false} InsertAt(es: seq<Entry>, k: Payload, v: Payload, i: nat)
    requires DistinctKeys(es) && i < |es| && es[i].key == k
    ensures Insert(es, k, v) == es[i := Entry(k, v)]
    decreases |es|
  {
    if i > 0 {
      assert es[0].key != k;
      InsertAt(es[1..], k, v, i - 1);
    }
  }

  lemma {:induction false} InsertNew(es: seq<Entry>, k: Payload, v: Payload)
    requires forall i :: 0 <= i < |es| ==> es[i].key != k
    ensures Insert(es, k, v) == es + [Entry(k, v)]
    decreases |es|
  {
    if es != [] { InsertNew(es[1..], k, v); }
  }

  /** Which entries a coerced hash has: for every coerced key the value of the last entry
      that has it. */
  ghost predicate LastWith(p: Payload, n: nat, i: nat)
    requires p.Hash? && n <= |p.entries|
  {
    i < n && forall j :: i < j < n ==> Coerced(p.entries[j].key) != Coerced(p.entries[i].key)
  }

  function CoercedEntry(p: Payload, i: nat): Entry
    requires p.Hash? && i < |p.entries|
  {
    Entry(Coerced(p.entries[i].key), Coerced(p.entries[i].value))
  }

  lemma {:induction false} EntriesAre(p: Payload, n: nat)
    requires p.Hash? && n <= |p.entries|
    ensures DistinctKeys(CoercedEntries(p, n))
    ensures forall i: nat :: i < n && LastWith(p, n, i) ==> CoercedEntry(p, i) in CoercedEntries(p, n)
    ensures forall e :: e in CoercedEntries(p, n) ==>
      exists i: nat :: i < n && LastWith(p, n, i) && e == CoercedEntry(p, i)
    decreases n
  {
    hide Insert, Coerced, CoercedEntry, LastWith, DistinctKeys;
    if n == 0 {
      NoLast(p);
    } else {
      var k, v := Coerced(p.entries[n - 1].key), Coerced(p.entries[n - 1].value);
      EntriesAre(p, n - 1);
      InsertedIs(CoercedEntries(p, n - 1), k, v);
      NextLast(p, n);
      forall e | e in CoercedEntries(p, n)
        ensures exists i: nat :: i < n && LastWith(p, n, i) && e == CoercedEntry(p, i)
      {
        if e != CoercedEntry(p, n - 1) {
          var i: nat :| i < n - 1 && LastWith(p, n - 1, i) && e == CoercedEntry(p, i);
          assert LastWith(p, n, i);
        }
      }
    }
  }

  lemma NoLast(p: Payload)
    requires p.Hash?
    ensures forall i: nat :: !LastWith(p, 0, i)
    ensures DistinctKeys([])
  {}

  lemma NextLast(p: Payload, n: nat)
    requires p.Hash? && 0 < n <= |p.entries|
    ensures LastWith(p, n, n - 1)
    ensures CoercedEntry(p, n - 1) == Entry(Coerced(p.entries[n - 1].key), Coerced(p.entries[n - 1].value))
    ensures forall i: nat :: i < n - 1 ==>
      (LastWith(p, n, i) <==> LastWith(p, n - 1, i) && CoercedEntry(p, i).key != CoercedEntry(p, n - 1).key)
  {
    hide Coerced;
    forall i: nat | i < n - 1
      ensures LastWith(p, n, i) <==> LastWith(p, n - 1, i) && CoercedEntry(p, i).key != CoercedEntry(p, n - 1).key
    {}
  }

  // ---------------------------------------------------------------------------
  // The result
  // ---------------------------------------------------------------------------

  /** Every string of the result, in keys and values, is valid UTF-8 and tagged so. */
  lemma {:induction false} CoercedIsClean(p: Payload)
    ensures AllClean(Coerced(p)) && WellFormed(Coerced(p))
    decreases p
  {
    hide Clean, Insert, CoerceText;
    match p
    case Str(t) => TextCoercedClean(t);
    case Other(_) =>
    case Array(items) =>
      forall i | 0 <= i < |items|
        ensures AllClean(Coerced(items[i])) && WellFormed(Coerced(items[i]))
      {
        CoercedIsClean(items[i]);
      }
    case Hash(es) =>
      forall i | 0 <= i < |es|
        ensures AllClean(Coerced(es[i].key)) && AllClean(Coerced(es[i].value))
        ensures WellFormed(Coerced(es[i].key)) && WellFormed(Coerced(es[i].value))
      {
        CoercedIsClean(es[i].key);
        CoercedIsClean(es[i].value);
      }
      HashIsClean(p);
  }

  lemma TextCoercedClean(t: Text)
    ensures Clean(CoerceText(t))
  {
    TextCoerced(t);
  }

  lemma {:induction false} HashIsClean(p: Payload)
    requires p.Hash?
    requires forall i :: 0 <= i < |p.entries| ==>
      && AllClean(Coerced(p.entries[i].key)) && AllClean(Coerced(p.entries[i].value))
      && WellFormed(Coerced(p.entries[i].key)) && WellFormed(Coerced(p.entries[i].value))
    ensures AllClean(Coerced(p)) && WellFormed(Coerced(p))
  {
    hide Clean, Insert;
    var n := |p.entries|;
    var rs := CoercedEntries(p, n);
    EntriesAre(p, n);
    assert Coerced(p) == Hash(rs);
    forall i | 0 <= i < |rs|
      ensures AllClean(rs[i].key) && AllClean(rs[i].value) && WellFormed(rs[i].key) && WellFormed(rs[i].value)
    {
      hide AllClean, WellFormed;
      assert rs[i] in rs;
      var j: nat :| j < n && LastWith(p, n, j) && rs[i] == CoercedEntry(p, j);
    }
  }

  /** A payload whose strings are valid UTF-8 already is left alone. */
  lemma {:induction false} CleanUnchanged(p: Payload)
    requires AllClean(p) && WellFormed(p)
    ensures Coerced(p) == p && !HasLossy(p)
    decreases p
  {
    hide Insert;
    match p
    case Str(t) => assert Occurs(t, p);
    case Other(_) =>
    case Array(items) =>
      forall i | 0 <= i < |items| ensures Coerced(items[i]) == items[i] {
        assert forall t :: Occurs(t, items[i]) ==> Occurs(t, p);
        CleanUnchanged(items[i]);
      }
    case Hash(es) =>
      forall i | 0 <= i < |es| ensures Coerced(es[i].key) == es[i].key && Coerced(es[i].value) == es[i].value {
        assert forall t :: Occurs(t, es[i].key) ==> Occurs(t, p);
        assert forall t :: Occurs(t, es[i].value) ==> Occurs(t, p);
        CleanUnchanged(es[i].key);
        CleanUnchanged(es[i].value);
      }
      EntriesUnchanged(p, |es|);
  }

  lemma {:induction false} EntriesUnchanged(p: Payload, n: nat)
    requires p.Hash? && n <= |p.entries| && DistinctKeys(p.entries)
    requires forall i :: 0 <= i < |p.entries| ==>
      Coerced(p.entries[i].key) == p.entries[i].key && Coerced(p.entries[i].value) == p.entries[i].value
    ensures CoercedEntries(p, n) == p.entries[..n]
    decreases n
  {
    hide Coerced;
    if n > 0 {
      EntriesUnchanged(p, n - 1);
      InsertNew(p.entries[..n - 1], p.entries[n - 1].key, p.entries[n - 1].value);
    }
  }

  /** A second pass is the identity and reports no loss. */
  lemma SecondPass(p: Payload)
    ensures Coerced(Coerced(p)) == Coerced(p) && !HasLossy(Coerced(p))
  {
    CoercedIsClean(p);
    CleanUnchanged(Coerced(p));
  }

  // ---------------------------------------------------------------------------
  // coerce_payload
  // ---------------------------------------------------------------------------

  lemma LossyIn(p: Payload)
    ensures p.Other? ==> !HasLossy(p)
    ensures p.Str? ==> (HasLossy(p) <==> Lossy(p.text))
    ensures p.Array? ==> (HasLossy(p) <==> exists i :: 0 <= i < |p.items| && HasLossy(p.items[i]))
    ensures p.Hash? ==> (HasLossy(p) <==>
      exists i :: 0 <= i < |p.entries| && (HasLossy(p.entries[i].key) || HasLossy(p.entries[i].value)))
  {
    hide Lossy;
    match p
    case Other(_) =>
    case Str(t) => assert Occurs(t, p);
    case Array(items) =>
      if HasLossy(p) {
        var t :| Occurs(t, p) && Lossy(t);
        var i :| 0 <= i < |items| && Occurs(t, items[i]);
        assert HasLossy(items[i]);
      }
      forall i, t | 0 <= i < |items| && Occurs(t, items[i]) ensures Occurs(t, p) {}
    case Hash(es) =>
      if HasLossy(p) {
        var t :| Occurs(t, p) && Lossy(t);
        var i :| 0 <= i < |es| && (Occurs(t, es[i].key) || Occurs(t, es[i].value));
        assert HasLossy(es[i].key) || HasLossy(es[i].value);
      }
      forall i, t | 0 <= i < |es| && (Occurs(t, es[i].key) || Occurs(t, es[i].value)) ensures Occurs(t, p) {}
  }

  /** The coerced payload, and whether some string of it was lossy. */
  method CoercePayload(payload: Payload) returns (c: Payload, hadLossyString: bool)
    ensures c == Coerced(payload)
    ensures hadLossyString <==> exists t :: Occurs(t, payload) && Lossy(t)
    decreases payload
  {
    hide Occurs, Lossy, CoerceText, Insert, HasLossy, Same;
    LossyIn(payload);
    LossyMeans(payload);
    hadLossyString := false;
    match payload
    case Hash(entries) =>
      var memo: seq<Entry> := [];
      for i := 0 to |entries|
        invariant memo == CoercedEntries(payload, i)
        invariant hadLossyString <==> exists j :: 0 <= j < i && (HasLossy(entries[j].key) || HasLossy(entries[j].value))
      {
        var newKey, l := CoercePayload(entries[i].key);
        LossyMeans(entries[i].key);
        hadLossyString := hadLossyString || l;
        var newValue;
        newValue, l := CoercePayload(entries[i].value);
        LossyMeans(entries[i].value);
        hadLossyString := hadLossyString || l;
        memo := Insert(memo, newKey, newValue);
      }
      c := Hash(memo);
    case Array(items) =>
      var coerced: seq<Payload> := [];
      for i := 0 to |items|
        invariant |coerced| == i && forall j :: 0 <= j < i ==> coerced[j] == Coerced(items[j])
        invariant hadLossyString <==> exists j :: 0 <= j < i && HasLossy(items[j])
      {
        var item, l := CoercePayload(items[i]);
        LossyMeans(items[i]);
        hadLossyString := hadLossyString || l;
        coerced := coerced + [item];
      }
      c := Array(coerced);
    case Str(t) =>
      var coerced := CoerceText(t);
      TextCoerced(t);
      if !Same(coerced, t) { hadLossyString := true; }
      c := Str(coerced);
    case Other(_) =>
      c := payload;
  }

  lemma LossyMeans(p: Payload)
    ensures HasLossy(p) <==> exists t :: Occurs(t, p) && Lossy(t)
  {}
}
