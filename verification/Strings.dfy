/** Octet strings, the 256-byte C arrays that hold them, and the two decimal notations that
    cross the wire: `snprintf("%d")` on the server and `int()` on the client. */
module Strings {

  datatype Option<+T> = None | Some(value: T)

  type Octet = b: int | 0 <= b < 256

  type Text = seq<Octet>

  const NUL: Octet := 0
  const NEWLINE: Octet := 10
  const SPACE: Octet := 32
  const DOT: Octet := 46
  const MAX_VALUE_LENGTH := 256

  /** A C array `char[MAX_VALUE_LENGTH]`. */
  type Field = f: Text | |f| == MAX_VALUE_LENGTH witness seq(MAX_VALUE_LENGTH, _ => NUL)

  /** A C string that fits a Field together with its terminator. */
  type CText = s: Text | |s| < MAX_VALUE_LENGTH && NUL !in s witness []

  // ----- C strings in arrays -----

  predicate Terminated(buf: Text) {
    NUL in buf
  }

  /** What `strlen`, `strcmp` and `%s` see of an array: the octets before the first NUL. */
  function CStr(buf: Text): (s: Text)
    ensures NUL !in s
    ensures s <= buf
    ensures Terminated(buf) <==> |s| < |buf|
    ensures |s| < |buf| ==> buf[|s|] == NUL
  {
    if buf == [] || buf[0] == NUL then [] else [buf[0]] + CStr(buf[1..])
  }

  /** The C string of an array is the only NUL-free prefix followed by a NUL. */
  lemma {:induction false} CStrUnique(buf: Text, s: Text)
    requires s <= buf && NUL !in s
    requires |s| == |buf| || buf[|s|] == NUL
    ensures CStr(buf) == s
  {
  }

  /** `strncpy(dst, src, MAX_VALUE_LENGTH)`: truncates without terminating, or pads with NULs. */
  function StrNCpy(src: Text): Field {
    if |src| >= MAX_VALUE_LENGTH then src[..MAX_VALUE_LENGTH]
    else src + seq(MAX_VALUE_LENGTH - |src|, _ => NUL)
  }

  /** The copy keeps its terminator exactly when the source string is shorter than the array,
      and is then lossless. */
  lemma {:induction false} StrNCpyLossless(s: Text)
    requires NUL !in s
    ensures Terminated(StrNCpy(s)) <==> |s| < MAX_VALUE_LENGTH
    ensures |s| < MAX_VALUE_LENGTH ==> CStr(StrNCpy(s)) == s
  {
    if |s| < MAX_VALUE_LENGTH {
      assert StrNCpy(s)[|s|] == NUL;
      CStrUnique(StrNCpy(s), s);
    }
  }

  /** `a[0] = '\0'` on an array with any other content. */
  lemma {:induction false} ClearedField(f: Field)
    ensures Terminated(f[0 := NUL]) && CStr(f[0 := NUL]) == []
  {
  }

  // ----- pieces -----

  /** `s.split(sep)`. */
  function SplitAt(s: Text, sep: Octet): (pieces: seq<Text>)
    ensures pieces != []
  {
    if s == [] then [[]]
    else
      var more := SplitAt(s[1..], sep);
      if s[0] == sep then [[]] + more else [[s[0]] + more[0]] + more[1..]
  }

  /** `sep.join(pieces)`. */
  function JoinWith(pieces: seq<Text>, sep: Octet): Text {
    if pieces == [] then []
    else if |pieces| == 1 then pieces[0]
    else pieces[0] + [sep] + JoinWith(pieces[1..], sep)
  }

  lemma {:induction false} SplitPieces(s: Text, sep: Octet)
    ensures forall w | w in SplitAt(s, sep) :: sep !in w
  {
    if s != [] {
      SplitPieces(s[1..], sep);
      var more := SplitAt(s[1..], sep);
      assert more[0] in more;
      assert forall w | w in more[1..] :: w in more;
    }
  }

  lemma {:induction false} JoinSplit(s: Text, sep: Octet)
    ensures JoinWith(SplitAt(s, sep), sep) == s
  {
    if s != [] {
      var more := SplitAt(s[1..], sep);
      JoinSplit(s[1..], sep);
      if s[0] == sep {
        assert ([[]] + more)[1..] == more;
      } else {
        var words := [[s[0]] + more[0]] + more[1..];
        assert words[1..] == more[1..];
        assert JoinWith(words, sep) == [s[0]] + JoinWith(more, sep);
      }
    }
  }

  lemma {:induction false} SplitFirst(word: Text, sep: Octet, rest: Text)
    requires sep !in word
    ensures SplitAt(word + [sep] + rest, sep) == [word] + SplitAt(rest, sep)
  {
    var line := word + [sep] + rest;
    if word == [] {
      assert line[1..] == rest;
    } else {
      assert line[1..] == word[1..] + [sep] + rest;
      assert line[0] == word[0] && word[0] in word;
      SplitFirst(word[1..], sep, rest);
      assert [word[0]] + word[1..] == word;
    }
  }

  lemma {:induction false} SplitNone(word: Text, sep: Octet)
    requires sep !in word
    ensures SplitAt(word, sep) == [word]
  {
    if word != [] {
      assert word[0] in word;
      SplitNone(word[1..], sep);
      assert [word[0]] + word[1..] == word;
    }
  }

  // ----- decimal numbers -----

  predicate IsDigit(c: Octet) {
    48 <= c <= 57
  }

  /** `snprintf("%d", n)` for a count. */
  function Decimal(n: nat): (s: Text)
    ensures s != [] && forall c | c in s :: IsDigit(c)
  {
    if n < 10 then [48 + n] else Decimal(n / 10) + [48 + n % 10]
  }

  /** The text has four pieces between dots, which read as the four numbers in that order. */
  predicate IsDottedQuad(s: Text, a: Octet, b: Octet, c: Octet, d: Octet) {
    var pieces := SplitAt(s, DOT);
    && |pieces| == 4
    && PyInt(pieces[0]) == Some(a) && PyInt(pieces[1]) == Some(b)
    && PyInt(pieces[2]) == Some(c) && PyInt(pieces[3]) == Some(d)
  }

  /** Dotted-quad address, as `inet_ntoa` prints it. */
  function InetNtoa(a: Octet, b: Octet, c: Octet, d: Octet): (s: CText)
    ensures s != [] && SingleOctet(s) && IsDottedQuad(s, a, b, c, d)
  {
    OctetWidth(a); OctetWidth(b); OctetWidth(c); OctetWidth(d);
    DottedQuad(a, b, c, d);
    Decimal(a) + [DOT] + Decimal(b) + [DOT] + Decimal(c) + [DOT] + Decimal(d)
  }

  lemma {:induction false} OctetWidth(a: Octet)
    ensures |Decimal(a)| <= 3
  {
    if a >= 10 {
      assert |Decimal(a / 10)| <= 2;
    }
  }

  lemma {:induction false} DottedQuad(a: Octet, b: Octet, c: Octet, d: Octet)
    ensures IsDottedQuad(Decimal(a) + [DOT] + Decimal(b) + [DOT] + Decimal(c) + [DOT] + Decimal(d), a, b, c, d)
  {
    hide Decimal, PyInt, SplitAt;
    var x, y, z, w := Decimal(a), Decimal(b), Decimal(c), Decimal(d);
    assert DOT !in x && DOT !in y && DOT !in z && DOT !in w;
    SplitFirst(x, DOT, y + [DOT] + z + [DOT] + w);
    SplitFirst(y, DOT, z + [DOT] + w);
    SplitFirst(z, DOT, w);
    SplitNone(w, DOT);
    assert x + [DOT] + y + [DOT] + z + [DOT] + w == x + [DOT] + (y + [DOT] + z + [DOT] + w);
    assert y + [DOT] + z + [DOT] + w == y + [DOT] + (z + [DOT] + w);
    DecimalRoundTrip(a); DecimalRoundTrip(b); DecimalRoundTrip(c); DecimalRoundTrip(d);
  }

  /** Different addresses have different texts. */
  lemma {:induction false} AddressesDistinct(a: Octet, b: Octet, c: Octet, d: Octet,
                                             a': Octet, b': Octet, c': Octet, d': Octet)
    requires InetNtoa(a, b, c, d) == InetNtoa(a', b', c', d')
    ensures a == a' && b == b' && c == c' && d == d'
  {
    hide InetNtoa, PyInt, SplitAt;
    assert IsDottedQuad(InetNtoa(a, b, c, d), a', b', c', d');
  }

  /** Every character is a one-octet UTF-8 sequence (section 3 of RFC 3629). */
  predicate SingleOctet(s: Text) {
    forall c | c in s :: c < 128
  }

  /** ASCII characters Python counts as white space. */
  predicate IsSpace(c: Octet) {
    9 <= c <= 13 || 28 <= c <= 32
  }

  function StripLeft(s: Text): Text {
    if s != [] && IsSpace(s[0]) then StripLeft(s[1..]) else s
  }

  function StripRight(s: Text): Text {
    if s != [] && IsSpace(s[|s| - 1]) then StripRight(s[..|s| - 1]) else s
  }

  /** Digits, optionally grouped by single underscores. */
  predicate Numeral(s: Text) {
    && s != [] && IsDigit(s[0]) && IsDigit(s[|s| - 1])
    && (forall c | c in s :: IsDigit(c) || c == 95)
    && (forall i | 0 <= i < |s| - 1 :: s[i] == 95 ==> s[i + 1] != 95)
  }

  function NumeralValue(s: Text): nat {
    if s == [] then 0
    else
      var front := NumeralValue(s[..|s| - 1]);
      var c := s[|s| - 1];
      if IsDigit(c) then 10 * front + (c - 48) else front
  }

  /** Python's `int(s)` for one-octet characters; None is ValueError. */
  function PyInt(s: Text): Option<int> {
    var t := StripRight(StripLeft(s));
    if t != [] && (t[0] == 43 || t[0] == 45) then
      var magnitude: int := NumeralValue(t[1..]);
      if !Numeral(t[1..]) then None
      else Some(if t[0] == 45 then -magnitude else magnitude)
    else if Numeral(t) then Some(NumeralValue(t))
    else None
  }

  lemma {:induction false} DecimalValue(n: nat)
    ensures NumeralValue(Decimal(n)) == n
  {
    var s := Decimal(n);
    if n < 10 {
      assert s[..|s| - 1] == [];
    } else {
      DecimalValue(n / 10);
      assert s[..|s| - 1] == Decimal(n / 10);
    }
  }

  /** Whatever count the server prints, the client's `int()` reads back. */
  lemma {:induction false} DecimalRoundTrip(n: nat)
    ensures PyInt(Decimal(n)) == Some(n)
  {
    var s := Decimal(n);
    assert forall i | 0 <= i < |s| :: s[i] in s;
    assert StripLeft(s) == s && StripRight(s) == s;
    DecimalValue(n);
  }

  // ----- what the numerals mean -----

  function Pow10(k: nat): nat {
    if k == 0 then 1 else 10 * Pow10(k - 1)
  }

  lemma {:induction false} Tens(x: nat, p: nat)
    ensures x * (10 * p) == 10 * (x * p)
  {
  }

  /** A leading digit counts as many tens as digits follow: numerals are decimal and read from the left,
      and `%d` prints no leading zero. */
  lemma {:induction false} DigitsCount(s: Text)
    requires s != [] && forall c | c in s :: IsDigit(c)
    ensures s[0] in s && NumeralValue(s) == (s[0] - 48) * Pow10(|s| - 1) + NumeralValue(s[1..])
  {
    assert s[0] in s;
    var front, last := s[..|s| - 1], s[|s| - 1];
    if |s| > 1 {
      DigitsCount(front);
      assert front[1..] == s[1..][..|s| - 2] && s[1..][|s| - 2] == last;
      assert last in s && front[0] in s;
      Tens(s[0] - 48, Pow10(|s| - 2));
    } else {
      assert front == [] && s[0] in s;
    }
  }

  lemma {:induction false} NoLeadingZero(n: nat)
    ensures Decimal(n)[0] == 48 ==> n == 0
  {
    if n >= 10 {
      NoLeadingZero(n / 10);
    }
  }

  lemma {:induction false} Stripped(left: Text, s: Text, right: Text)
    requires (forall c | c in left :: IsSpace(c)) && (forall c | c in right :: IsSpace(c))
    requires s != [] && !IsSpace(s[0]) && !IsSpace(s[|s| - 1])
    ensures StripRight(StripLeft(left + s + right)) == s
    decreases |left| + |right|
  {
    var t := left + s + right;
    if left != [] {
      assert left[0] in left && t[1..] == left[1..] + s + right;
      assert forall c | c in left[1..] :: c in left;
      Stripped(left[1..], s, right);
    } else {
      assert t == s + right && StripLeft(t) == t;
      if right != [] {
        var right' := right[..|right| - 1];
        assert right[|right| - 1] in right && t[..|t| - 1] == left + s + right';
        assert forall c | c in right' :: c in right;
        Stripped(left, s, right');
        assert StripLeft(left + s + right') == left + s + right';
      } else {
        assert t == s;
      }
    }
  }

  lemma {:induction false} DecimalNumeral(n: nat)
    ensures
      var s := Decimal(n);
      Numeral(s) && NumeralValue(s) == n && IsDigit(s[0]) && IsDigit(s[|s| - 1])
  {
    var s := Decimal(n);
    DecimalValue(n);
    assert forall i | 0 <= i < |s| :: s[i] in s;
  }

  /** `int()` takes white space around a number and one sign before it. */
  lemma {:induction false} PyIntReads(left: Text, n: nat, right: Text)
    requires (forall c | c in left :: IsSpace(c)) && (forall c | c in right :: IsSpace(c))
    ensures PyInt(left + Decimal(n) + right) == Some(n)
    ensures PyInt(left + ([43] + Decimal(n)) + right) == Some(n)
    ensures
      var negative := PyInt(left + ([45] + Decimal(n)) + right);
      negative.Some? && negative.value + n == 0
  {
    hide Decimal, Numeral, NumeralValue, StripLeft, StripRight;
    var s := Decimal(n);
    DecimalNumeral(n);
    Stripped(left, s, right); Stripped(left, [43] + s, right); Stripped(left, [45] + s, right);
    assert ([43] + s)[1..] == s && ([45] + s)[1..] == s;
  }

  predicate InNumeral(c: Octet) {
    IsDigit(c) || c == 43 || c == 45 || c == 95 || IsSpace(c)
  }

  lemma {:induction false} StrippedKeeps(s: Text, c: Octet)
    requires c in s && !IsSpace(c)
    ensures c in StripLeft(s) && c in StripRight(s)
  {
    if IsSpace(s[0]) {
      StrippedKeeps(s[1..], c);
    }
    if IsSpace(s[|s| - 1]) {
      StrippedKeeps(s[..|s| - 1], c);
    }
  }

  /** Any other character, like none at all, is a ValueError. */
  lemma {:induction false} PyIntRefuses(s: Text)
    requires s == [] || exists c :: c in s && !InNumeral(c)
    ensures PyInt(s) == None
  {
    if c :| c in s && !InNumeral(c) {
      StrippedKeeps(s, c);
      var t := StripRight(StripLeft(s));
      StrippedKeeps(StripLeft(s), c);
      assert c in t;
      assert t[0] == c || c in t[1..];
    }
  }
}
