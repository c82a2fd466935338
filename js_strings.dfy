/** JavaScript strings as the converter sees them: sequences of UTF-16 code
    units (`.length` counts code units), with the character classes its regular
    expressions use and the few String methods it calls. */
module JsStrings {

  /** One UTF-16 code unit. Lone surrogates are code units like any other. */
  newtype CodeUnit = x: int | 0 <= x < 0x1_0000

  type JsString = seq<CodeUnit>

  /** The code unit of a character of the Basic Multilingual Plane. Every
      literal of this model is made of such characters; anything else becomes
      U+FFFD. */
  function Ch(c: char): CodeUnit
  {
    if c as int < 0x1_0000 then c as int as CodeUnit else 0xFFFD
  }

  /** A string literal of the source, as code units. */
  function Str(s: string): (r: JsString)
    ensures |r| == |s|
  {
    seq(|s|, i requires 0 <= i < |s| => Ch(s[i]))
  }

  /** Literals concatenate as their code units do. */
  lemma StrAppend(a: string, b: string)
    ensures Str(a + b) == Str(a) + Str(b)
  {
  }

  // ---------------------------------------------------------------------
  // Character classes of the regular expressions

  /** White space in a regular expression, and what `String.prototype.trim` removes:
      the WhiteSpace and LineTerminator code points of ECMAScript. */
  predicate IsWhiteSpace(c: CodeUnit)
  {
    c == 0x09 || c == 0x0A || c == 0x0B || c == 0x0C || c == 0x0D || c == 0x20 ||
    c == 0xA0 || c == 0x1680 || (0x2000 <= c <= 0x200A) || c == 0x2028 ||
    c == 0x2029 || c == 0x202F || c == 0x205F || c == 0x3000 || c == 0xFEFF
  }

  /** A decimal digit. */
  predicate IsDigit(c: CodeUnit)
  {
    Ch('0') <= c <= Ch('9')
  }

  /** An ASCII upper-case letter. */
  predicate IsUpper(c: CodeUnit)
  {
    Ch('A') <= c <= Ch('Z')
  }

  /** An ASCII lower-case letter. */
  predicate IsLower(c: CodeUnit)
  {
    Ch('a') <= c <= Ch('z')
  }

  /** A hexadecimal digit of either case. */
  predicate IsHexDigit(c: CodeUnit)
  {
    IsDigit(c) || (Ch('A') <= c <= Ch('F')) || (Ch('a') <= c <= Ch('f'))
  }

  /** A word character of a regular expression: an ASCII letter, a digit or `_`. */
  predicate IsWordChar(c: CodeUnit)
  {
    IsUpper(c) || IsLower(c) || IsDigit(c) || c == Ch('_')
  }

  predicate AllDigits(s: JsString)
  {
    forall i | 0 <= i < |s| :: IsDigit(s[i])
  }

  predicate AllWhiteSpace(s: JsString)
  {
    forall i | 0 <= i < |s| :: IsWhiteSpace(s[i])
  }

  /** One or more decimal digits and nothing else. */
  predicate IsDigitString(s: JsString)
  {
    |s| > 0 && AllDigits(s)
  }

  // ---------------------------------------------------------------------
  // String.prototype.trim

  /** `s` without its leading white space (lemma TrimStartDrops). */
  function TrimStart(s: JsString): (r: JsString)
    ensures |r| <= |s|
    ensures r == [] || !IsWhiteSpace(r[0])
  {
    if s != [] && IsWhiteSpace(s[0]) then TrimStart(s[1..]) else s
  }

  /** `s` without its trailing white space (lemma TrimEndDrops). */
  function TrimEnd(s: JsString): (r: JsString)
    ensures |r| <= |s|
    ensures r == [] || !IsWhiteSpace(r[|r| - 1])
  {
    if s != [] && IsWhiteSpace(s[|s| - 1]) then TrimEnd(s[..|s| - 1]) else s
  }

  /** TrimStart keeps a suffix of `s` and what it removes is white space. */
  lemma {:induction false} TrimStartDrops(s: JsString)
    ensures TrimStart(s) == s[|s| - |TrimStart(s)|..]
    ensures AllWhiteSpace(s[..|s| - |TrimStart(s)|])
  {
    if s != [] && IsWhiteSpace(s[0]) {
      var r := TrimStart(s[1..]);
      TrimStartDrops(s[1..]);
      assert s[1..][|s| - 1 - |r|..] == s[|s| - |r|..];
      assert s[..|s| - |r|] == [s[0]] + s[1..][..|s| - 1 - |r|];
    }
  }

  /** TrimEnd keeps a prefix of `s` and what it removes is white space. */
  lemma {:induction false} TrimEndDrops(s: JsString)
    ensures TrimEnd(s) == s[..|TrimEnd(s)|]
    ensures AllWhiteSpace(s[|TrimEnd(s)|..])
  {
    if s != [] && IsWhiteSpace(s[|s| - 1]) {
      var r := TrimEnd(s[..|s| - 1]);
      TrimEndDrops(s[..|s| - 1]);
      assert s[..|s| - 1][..|r|] == s[..|r|];
      assert s[|r|..] == s[..|s| - 1][|r|..] + [s[|s| - 1]];
    }
  }

  /** `s.trim()`: the longest slice of `s` that neither starts nor ends with
      white space, once all surrounding white space is gone. */
  function Trim(s: JsString): (r: JsString)
    ensures r == [] || (!IsWhiteSpace(r[0]) && !IsWhiteSpace(r[|r| - 1]))
  {
    var t := TrimStart(s);
    var r := TrimEnd(t);
    TrimEndDrops(t);
    assert r != [] ==> r[0] == t[0];
    r
  }

  lemma TrimIsSlice(s: JsString)
    ensures exists k :: (0 <= k <= |s| - |Trim(s)| && Trim(s) == s[k..k + |Trim(s)|] &&
                         AllWhiteSpace(s[..k]) && AllWhiteSpace(s[k + |Trim(s)|..]))
  {
    var t := TrimStart(s);
    var r := TrimEnd(t);
    var k := |s| - |t|;
    TrimStartDrops(s);
    TrimEndDrops(t);
    assert r == s[k..k + |r|];
    assert s[k + |r|..] == t[|r|..];
  }

  /** `input.trim() === ""` exactly when the input is all white space. */
  lemma TrimEmptyIff(s: JsString)
    ensures Trim(s) == [] <==> AllWhiteSpace(s)
  {
    var t := TrimStart(s);
    if Trim(s) == [] {
      TrimStartDrops(s);
      TrimEndDrops(t);
      assert t[0..] == t;
      assert AllWhiteSpace(t);
      assert s[..|s|] == s;
    } else {
      TrimIsSlice(s);
      var k :| 0 <= k <= |s| - |Trim(s)| && Trim(s) == s[k..k + |Trim(s)|];
      assert s[k] == Trim(s)[0];
    }
  }

  /** Trimming twice is trimming once. */
  lemma TrimIdempotent(s: JsString)
    ensures Trim(Trim(s)) == Trim(s)
  {
    var r := Trim(s);
    assert TrimStart(r) == r;
    assert TrimEnd(r) == r;
  }

  // ---------------------------------------------------------------------
  // Other String and Array methods the converter calls

  /** `s.startsWith(p)` */
  predicate StartsWith(s: JsString, p: JsString)
  {
    |p| <= |s| && s[..|p|] == p
  }

  /** `s.toUpperCase()` on the ASCII strings it is applied to here. */
  function ToUpperAscii(s: JsString): (r: JsString)
    ensures |r| == |s|
    ensures forall i | 0 <= i < |s| :: r[i] == (if IsLower(s[i]) then s[i] - 32 else s[i])
  {
    seq(|s|, i requires 0 <= i < |s| => if IsLower(s[i]) then s[i] - 32 else s[i])
  }

  /** `a.join(sep)`: the parts with `sep` between neighbours. */
  function Join(parts: seq<JsString>, sep: JsString): JsString
  {
    if |parts| == 0 then []
    else if |parts| == 1 then parts[0]
    else parts[0] + sep + Join(parts[1..], sep)
  }

  /** The first position of `c` in `s`. */
  function IndexOf(s: JsString, c: CodeUnit): (i: nat)
    requires c in s
    ensures i < |s| && s[i] == c && c !in s[..i]
  {
    if s[0] == c then 0
    else
      var j := IndexOf(s[1..], c);
      assert s[..j + 1] == [s[0]] + s[1..][..j];
      j + 1
  }

  /** `s.split(d)` for a one-unit separator: the maximal runs between the
      occurrences of `d`; there is always at least one part. */
  function Split(s: JsString, d: CodeUnit): (parts: seq<JsString>)
    ensures |parts| >= 1
    ensures forall k | 0 <= k < |parts| :: d !in parts[k]
    ensures Join(parts, [d]) == s
    decreases |s|
  {
    if d !in s then [s]
    else
      var i := IndexOf(s, d);
      var rest := Split(s[i + 1..], d);
      assert s == s[..i] + [d] + s[i + 1..];
      [s[..i]] + rest
  }

  /** The number of occurrences of `c` in `s`. */
  function Count(s: JsString, c: CodeUnit): nat
  {
    if s == [] then 0 else (if s[0] == c then 1 else 0) + Count(s[1..], c)
  }

  lemma {:induction false} CountAppend(a: JsString, b: JsString, c: CodeUnit)
    ensures Count(a + b, c) == Count(a, c) + Count(b, c)
  {
    if a != [] {
      assert (a + b)[1..] == a[1..] + b;
      CountAppend(a[1..], b, c);
    } else {
      assert a + b == b;
    }
  }

  lemma {:induction false} CountAbsent(s: JsString, c: CodeUnit)
    ensures c !in s <==> Count(s, c) == 0
  {
    if s != [] {
      CountAbsent(s[1..], c);
      assert c in s <==> s[0] == c || c in s[1..];
    }
  }

  /** The parts of `s.split(d)` are one more than the separators in `s`. */
  lemma {:induction false} SplitCount(s: JsString, d: CodeUnit)
    ensures |Split(s, d)| == Count(s, d) + 1
    decreases |s|
  {
    if d !in s {
      CountAbsent(s, d);
    } else {
      var i := IndexOf(s, d);
      SplitCount(s[i + 1..], d);
      assert |Split(s, d)| == 1 + |Split(s[i + 1..], d)|;
      CountAtFirst(s, i, d);
    }
  }

  /** The first occurrence of `d` is one of the occurrences, and the rest
      come after it. */
  lemma CountAtFirst(s: JsString, i: nat, d: CodeUnit)
    requires i < |s| && s[i] == d && d !in s[..i]
    ensures Count(s, d) == 1 + Count(s[i + 1..], d)
  {
    assert s == s[..i] + [d] + s[i + 1..];
    CountAppend(s[..i] + [d], s[i + 1..], d);
    CountAppend(s[..i], [d], d);
    CountAbsent(s[..i], d);
    assert [d][1..] == [];
  }

  /** Three parts joined: the separator twice, between neighbours. */
  lemma JoinThree(parts: seq<JsString>, sep: JsString)
    requires |parts| == 3
    ensures Join(parts, sep) == parts[0] + sep + parts[1] + sep + parts[2]
    ensures Join(parts, sep) == parts[0] + (sep + parts[1] + sep + parts[2])
  {
    assert parts[1..][1..] == parts[2..];
    assert Join(parts[2..], sep) == parts[2];
    assert Join(parts[1..], sep) == parts[1] + sep + parts[2];
  }

  /** The first unit of a concatenation comes from its left side and the
      last from its right side. */
  lemma EndsOfConcat(x: JsString, y: JsString)
    requires x != [] && y != []
    ensures (x + y)[0] == x[0] && (x + y)[|x + y| - 1] == y[|y| - 1]
  {
  }

  /** Concatenation regroups; stated once so that callers need not leave
      the regrouping to the solver. */
  lemma Associative<T>(x: seq<T>, y: seq<T>, z: seq<T>)
    ensures x + y + z == x + (y + z)
  {
  }

  /** The parts one after another, as appending them in a loop builds it. */
  function Concat<T>(parts: seq<seq<T>>): seq<T>
  {
    if parts == [] then [] else Concat(parts[..|parts| - 1]) + parts[|parts| - 1]
  }

  lemma {:induction false} ConcatAppend<T>(a: seq<seq<T>>, b: seq<seq<T>>)
    ensures Concat(a + b) == Concat(a) + Concat(b)
    decreases |b|
  {
    if b == [] {
      assert a + b == a;
    } else {
      var b' := b[..|b| - 1];
      ConcatAppend(a, b');
      assert (a + b)[..|a + b| - 1] == a + b';
      assert Concat(a) + Concat(b) == Concat(a) + (Concat(b') + b[|b| - 1]);
    }
  }

  /** A slice that lies in the second half of a concatenation. */
  lemma SliceOfAppend<T>(x: seq<T>, y: seq<T>, a: nat, b: nat)
    requires |x| <= a <= b <= |x| + |y|
    ensures (x + y)[a..b] == y[a - |x|..b - |x|]
  {
    assert forall k | 0 <= k < b - a :: (x + y)[a..b][k] == y[a - |x|..b - |x|][k];
  }

  /** A slice that lies in the first half of a concatenation. */
  lemma SliceOfFront<T>(x: seq<T>, y: seq<T>, a: nat, b: nat)
    requires a <= b <= |x|
    ensures (x + y)[a..b] == x[a..b]
  {
    assert forall k | 0 <= k < b - a :: (x + y)[a..b][k] == x[a..b][k];
  }

  /** Each part sits at the length of the parts before it. */
  lemma ConcatAt<T>(parts: seq<seq<T>>, j: nat)
    requires j < |parts|
    ensures var o := |Concat(parts[..j])|; var c := Concat(parts);
      o + |parts[j]| <= |c| && c[o..o + |parts[j]|] == parts[j]
  {
    assert parts == parts[..j + 1] + parts[j + 1..];
    ConcatAppend(parts[..j + 1], parts[j + 1..]);
    assert parts[..j + 1][..j] == parts[..j];
    var c := Concat(parts);
    var front := Concat(parts[..j + 1]);
    assert front == Concat(parts[..j]) + parts[j];
    assert c[..|front|] == front;
  }

  /** Each part of a concatenation after a head sits after the head and the
      parts before it. */
  lemma ConcatPlacement<T>(head: seq<T>, parts: seq<seq<T>>, j: nat)
    requires j < |parts|
    ensures var o := |head| + |Concat(parts[..j])|; var t := head + Concat(parts);
      o + |parts[j]| <= |t| && t[o..o + |parts[j]|] == parts[j]
  {
    ConcatAt(parts, j);
    var o := |Concat(parts[..j])|;
    SliceOfAppend(head, Concat(parts), |head| + o, |head| + o + |parts[j]|);
  }

  /** Where the `i`-th part starts in `Join(parts, sep)`. */
  function JoinOffset(parts: seq<JsString>, sep: JsString, i: nat): nat
    requires i <= |parts|
  {
    if i == 0 then 0 else |parts[0]| + |sep| + JoinOffset(parts[1..], sep, i - 1)
  }

  /** Each part sits at its offset in the join, preceded by the separator
      unless it is the first. */
  lemma {:induction false} JoinAt(parts: seq<JsString>, sep: JsString, i: nat)
    requires i < |parts|
    ensures JoinOffset(parts, sep, i) + |parts[i]| <= |Join(parts, sep)|
    ensures Join(parts, sep)[JoinOffset(parts, sep, i)..JoinOffset(parts, sep, i) + |parts[i]|] == parts[i]
    ensures i > 0 ==> (|sep| <= JoinOffset(parts, sep, i) &&
                       Join(parts, sep)[JoinOffset(parts, sep, i) - |sep|..JoinOffset(parts, sep, i)] == sep)
  {
    var j := Join(parts, sep);
    if |parts| == 1 {
      assert j == parts[0];
    } else {
      var rest := Join(parts[1..], sep);
      var head := parts[0] + sep;
      Associative(parts[0], sep, rest);
      assert j == head + rest;
      if i == 0 {
        SliceOfFront(head, rest, 0, |parts[0]|);
      } else {
        JoinAt(parts[1..], sep, i - 1);
        assert parts[1..][i - 1] == parts[i];
        var o := JoinOffset(parts[1..], sep, i - 1);
        assert JoinOffset(parts, sep, i) == |head| + o;
        JoinAtStep(parts[0], sep, rest, o, parts[i], i == 1);
      }
    }
  }

  /** One step of JoinAt: a part at offset `o` of the rest of a join, after
      the separator there (or, for the second part, at its start), sits at
      `|first + sep| + o` in the whole join, after a separator. */
  lemma JoinAtStep(first: JsString, sep: JsString, rest: JsString, o: nat, p: JsString, second: bool)
    requires o + |p| <= |rest| && rest[o..o + |p|] == p
    requires second ==> o == 0
    requires !second ==> |sep| <= o && rest[o - |sep|..o] == sep
    ensures var h := first + sep; var q := |h| + o;
      q + |p| <= |h + rest| && (h + rest)[q..q + |p|] == p && |sep| <= q && (h + rest)[q - |sep|..q] == sep
  {
    var h := first + sep;
    SliceOfAppend(h, rest, |h| + o, |h| + o + |p|);
    if second {
      SliceOfFront(h, rest, |first|, |h|);
      assert h[|first|..|h|] == sep;
    } else {
      SliceOfAppend(h, rest, |h| + o - |sep|, |h| + o);
    }
  }

  /** In a join followed by anything, each part sits at its offset, with
      the separator just before it unless it is the first. */
  lemma JoinPlacement(parts: seq<JsString>, sep: JsString, tail: JsString, i: nat)
    requires i < |parts|
    ensures var o := JoinOffset(parts, sep, i); var t := Join(parts, sep) + tail;
      o + |parts[i]| <= |t| && t[o..o + |parts[i]|] == parts[i] &&
      (i > 0 ==> |sep| <= o && t[o - |sep|..o] == sep)
  {
    var j := Join(parts, sep);
    JoinAt(parts, sep, i);
    var o := JoinOffset(parts, sep, i);
    SliceOfFront(j, tail, o, o + |parts[i]|);
    if i > 0 {
      SliceOfFront(j, tail, o - |sep|, o);
    }
  }
}
