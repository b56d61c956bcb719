/** The string primitives of Go's `strings`, `strconv` and `unicode` that the
    modelled code relies on. Text is a sequence of code points. */
module Text {
  import opened Prelude
  import opened Sequences
  import Radix

  predicate Free<T(==)>(s: seq<T>, c: T) {
    forall i :: 0 <= i < |s| ==> s[i] != c
  }

  /** Index of the first c, or |s|. */
  function IndexOf<T(==)>(s: seq<T>, c: T): (k: nat)
    ensures k <= |s|
    ensures Free(s[..k], c)
    ensures k < |s| ==> s[k] == c
  {
    if s == [] || s[0] == c then 0 else
      var k := 1 + IndexOf(s[1..], c);
      assert s[..k] == [s[0]] + s[1..][..k - 1];
      k
  }

  /** strings.Split on a one-character separator: never empty. */
  function Split<T(==)>(s: seq<T>, c: T): (parts: seq<seq<T>>)
    ensures parts != []
    decreases |s|
  {
    var k := IndexOf(s, c);
    if k == |s| then [s] else [s[..k]] + Split(s[k + 1..], c)
  }

  /** strings.Join with a one-character separator. */
  function Join<T>(parts: seq<seq<T>>, c: T): seq<T> {
    if parts == [] then []
    else if |parts| == 1 then parts[0]
    else parts[0] + [c] + Join(parts[1..], c)
  }

  ghost predicate AllFree<T>(parts: seq<seq<T>>, c: T) {
    forall i :: 0 <= i < |parts| ==> Free(parts[i], c)
  }

  lemma {:induction false} IndexOfSeparator<T>(a: seq<T>, c: T, b: seq<T>)
    requires Free(a, c)
    ensures IndexOf(a + [c] + b, c) == |a|
  {
    var s := a + [c] + b;
    var k := IndexOf(s, c);
    assert s[|a|] == c;
    assert forall i :: 0 <= i < k ==> s[i] == s[..k][i];
    assert forall i :: 0 <= i < |a| ==> s[i] == a[i];
  }

  lemma {:induction false} SplitFree<T>(s: seq<T>, c: T)
    requires Free(s, c)
    ensures Split(s, c) == [s]
  {
  }

  lemma {:induction false} SplitParts<T>(s: seq<T>, c: T)
    ensures AllFree(Split(s, c), c)
    decreases |s|
  {
    var k := IndexOf(s, c);
    if k < |s| {
      SplitParts(s[k + 1..], c);
    } else {
      assert s[..k] == s;
    }
  }

  /** Joining what Split returned gives the text back. */
  lemma {:induction false} JoinOfSplit<T>(s: seq<T>, c: T)
    ensures Join(Split(s, c), c) == s
    decreases |s|
  {
    var k := IndexOf(s, c);
    if k < |s| {
      JoinOfSplit(s[k + 1..], c);
      assert Split(s, c)[1..] == Split(s[k + 1..], c);
    }
  }

  /** Splitting a join of separator-free parts gives the parts back. */
  lemma {:induction false} SplitOfJoin<T>(parts: seq<seq<T>>, c: T)
    requires parts != [] && AllFree(parts, c)
    ensures Split(Join(parts, c), c) == parts
  {
    if |parts| == 1 {
      SplitFree(parts[0], c);
    } else {
      assert Join(parts, c) == parts[0] + [c] + Join(parts[1..], c);
      hide Split, Join, IndexOf;
      SplitOfJoin(parts[1..], c);
      SplitStep(parts[0], c, Join(parts[1..], c));
    }
  }

  lemma SplitStep<T>(a: seq<T>, c: T, b: seq<T>)
    requires Free(a, c)
    ensures Split(a + [c] + b, c) == [a] + Split(b, c)
  {
    var s := a + [c] + b;
    IndexOfSeparator(a, c, b);
    assert s[|a| + 1..] == b && s[..|a|] == a;
  }

  /** Split is a homomorphism at every separator. */
  lemma {:induction false} SplitAt<T>(a: seq<T>, c: T, b: seq<T>)
    ensures Split(a + [c] + b, c) == Split(a, c) + Split(b, c)
    decreases |a|
  {
    var k := IndexOf(a, c);
    if k == |a| {
      assert a[..k] == a;
      SplitFree(a, c);
      SplitStep(a, c, b);
    } else {
      var head, tail := a[..k], a[k + 1..];
      hide Split, IndexOf;
      SplitAt(tail, c, b);
      assert a == head + [c] + tail;
      AppendAssoc(head + [c], tail, [c]);
      AppendAssoc(head + [c], tail + [c], b);
      SplitStep(head, c, tail);
      SplitStep(head, c, tail + [c] + b);
      AppendAssoc([head], Split(tail, c), Split(b, c));
    }
  }

  lemma {:induction false} JoinConcat<T>(a: seq<seq<T>>, b: seq<seq<T>>, c: T)
    requires a != [] && b != []
    ensures Join(a + b, c) == Join(a, c) + [c] + Join(b, c)
  {
    if |a| == 1 {
      assert (a + b)[1..] == b;
    } else {
      JoinConcat(a[1..], b, c);
      assert (a + b)[1..] == a[1..] + b;
    }
  }

  /** Joins of separator-free parts are equal only for equal parts. */
  lemma JoinInjective<T>(a: seq<seq<T>>, b: seq<seq<T>>, c: T)
    requires a != [] && b != [] && AllFree(a, c) && AllFree(b, c)
    ensures Join(a, c) == Join(b, c) <==> a == b
  {
    SplitOfJoin(a, c);
    SplitOfJoin(b, c);
  }

  /** Every character of a join is the separator or comes from a part. */
  lemma {:induction false} JoinChars(parts: seq<string>, c: char, i: nat)
    requires i < |Join(parts, c)|
    ensures || Join(parts, c)[i] == c
            || exists k, j :: 0 <= k < |parts| && 0 <= j < |parts[k]| && Join(parts, c)[i] == parts[k][j]
  {
    var s := Join(parts, c);
    if |parts| == 1 {
      assert s[i] == parts[0][i];
    } else if i < |parts[0]| {
      assert s[i] == parts[0][i];
    } else if i > |parts[0]| {
      JoinChars(parts[1..], c, i - |parts[0]| - 1);
      assert s[i] == Join(parts[1..], c)[i - |parts[0]| - 1];
      if s[i] != c {
        var k, j :| 0 <= k < |parts[1..]| && 0 <= j < |parts[1..][k]| && s[i] == parts[1..][k][j];
        assert s[i] == parts[k + 1][j];
      }
    }
  }

  lemma JoinFirst<T>(a: seq<T>, rest: seq<seq<T>>, c: T)
    requires rest != []
    ensures Join([a] + rest, c) == a + [c] + Join(rest, c)
  {
    assert ([a] + rest)[1..] == rest;
  }

  lemma JoinOne(w: string, c: char)
    ensures Join([w], c) == w
  {
  }

  /** Splitting introduces no characters. */
  lemma {:induction false} SplitKeepsFree(s: string, c: char, x: char)
    requires Free(s, x)
    ensures AllFree(Split(s, c), x)
    decreases |s|
  {
    var k := IndexOf(s, c);
    if k < |s| {
      SplitKeepsFree(s[k + 1..], c, x);
    }
  }

  lemma {:induction false} JoinKeepsFree(parts: seq<string>, c: char, x: char)
    requires AllFree(parts, x) && c != x
    ensures Free(Join(parts, c), x)
  {
    if |parts| > 1 {
      JoinKeepsFree(parts[1..], c, x);
    }
  }

  /** A join ends as its last part ends. */
  lemma {:induction false} JoinLast(parts: seq<string>, c: char)
    requires parts != [] && parts[|parts| - 1] != ""
    ensures var s, l := Join(parts, c), parts[|parts| - 1];
            s != "" && s[|s| - 1] == l[|l| - 1]
  {
    if |parts| > 1 {
      JoinLast(parts[1..], c);
    }
  }

  lemma JoinThree(a: string, b: string, c: string)
    ensures Join([a, b, c], '.') == a + "." + b + "." + c
  {
    assert Join([c], '.') == c;
    assert [b, c][1..] == [c] && Join([b, c], '.') == b + "." + c;
    assert [a, b, c][1..] == [b, c];
    assert a + "." + b + "." + c == a + "." + (b + "." + c);
  }

  /** Three dot-free texts with dots between them split back into the three. */
  lemma ThreeSegments(a: string, b: string, c: string)
    requires Free(a, '.') && Free(b, '.') && Free(c, '.')
    ensures Split(a + "." + b + "." + c, '.') == [a, b, c]
  {
    hide Split, Join;
    SplitOfJoin([a, b, c], '.');
    JoinThree(a, b, c);
  }

  predicate HasSuffix<T(==)>(s: seq<T>, t: seq<T>) {
    |t| <= |s| && s[|s| - |t|..] == t
  }

  // ---- white space ---------------------------------------------------------

  /** unicode.IsSpace. */
  predicate IsSpace(c: char) {
    '\t' <= c <= '\r' || c == ' ' || c == '\U{85}' || c == '\U{A0}' || c == '\U{1680}'
    || '\U{2000}' <= c <= '\U{200A}' || c == '\U{2028}' || c == '\U{2029}'
    || c == '\U{202F}' || c == '\U{205F}' || c == '\U{3000}'
  }

  function TrimLeft(s: string): (t: string)
    ensures t != [] ==> !IsSpace(t[0])
    ensures |t| <= |s| && t == s[|s| - |t|..]
  {
    if s != [] && IsSpace(s[0]) then
      var t := TrimLeft(s[1..]);
      assert s[|s| - |t|..] == s[1..][|s| - 1 - |t|..];
      t
    else s
  }

  function TrimRight(s: string): (t: string)
    ensures t != [] ==> !IsSpace(t[|t| - 1])
    ensures t <= s
  {
    if s != [] && IsSpace(s[|s| - 1]) then TrimRight(s[..|s| - 1]) else s
  }

  /** strings.TrimSpace. */
  function TrimSpace(s: string): (t: string)
    ensures Trimmed(t)
    ensures Trimmed(s) ==> t == s
  {
    TrimRight(TrimLeft(s))
  }

  /** Only white space trims to nothing. */
  lemma {:induction false} BlankIsSpace(s: string)
    requires TrimSpace(s) == ""
    ensures forall i :: 0 <= i < |s| ==> IsSpace(s[i])
  {
    hide IsSpace;
    if TrimLeft(s) != "" {
      AllTrimmedRight(TrimLeft(s));
    } else {
      AllTrimmedLeft(s);
    }
  }

  lemma TextHasCharacter(s: string)
    requires TrimSpace(s) != ""
    ensures exists i :: 0 <= i < |s| && !IsSpace(s[i])
  {
    hide IsSpace, TrimRight;
    var t := TrimLeft(s);
    assert t != "" && s[|s| - |t|] == t[0];
  }

  lemma {:induction false} AllTrimmedLeft(s: string)
    requires TrimLeft(s) == ""
    ensures forall i :: 0 <= i < |s| ==> IsSpace(s[i])
  {
    hide IsSpace;
    if s != "" {
      assert IsSpace(s[0]) && TrimLeft(s[1..]) == "";
      hide TrimLeft;
      AllTrimmedLeft(s[1..]);
      assert forall i :: 0 < i < |s| ==> s[i] == s[1..][i - 1];
    }
  }

  lemma {:induction false} AllTrimmedRight(s: string)
    requires TrimRight(s) == ""
    ensures forall i :: 0 <= i < |s| ==> IsSpace(s[i])
  {
    hide IsSpace;
    if s != "" {
      AllTrimmedRight(s[..|s| - 1]);
      assert s == s[..|s| - 1] + [s[|s| - 1]];
    }
  }

  predicate Trimmed(s: string) {
    s != [] ==> !IsSpace(s[0]) && !IsSpace(s[|s| - 1])
  }

  /** strings.TrimRight(s, "\n"). */
  function TrimNewlines(s: string): (t: string)
    ensures t <= s
  {
    if s != [] && s[|s| - 1] == '\n' then TrimNewlines(s[..|s| - 1]) else s
  }

  predicate SpaceFree(s: string) {
    forall i :: 0 <= i < |s| ==> !IsSpace(s[i])
  }

  /** Length of the leading run of non-space characters. */
  function WordLength(s: string): (k: nat)
    ensures k <= |s| && SpaceFree(s[..k])
    ensures k < |s| ==> IsSpace(s[k])
  {
    if s == [] || IsSpace(s[0]) then 0 else
      var k := 1 + WordLength(s[1..]);
      assert s[..k] == [s[0]] + s[1..][..k - 1];
      k
  }

  /** strings.Fields: the maximal runs of non-space characters. */
  function Fields(s: string): seq<string>
    decreases |s|
  {
    var t := TrimLeft(s);
    if t == [] then [] else
      var k := WordLength(t);
      [t[..k]] + Fields(t[k..])
  }

  /** Fields introduces no characters. */
  lemma {:induction false} FieldsChars(s: string, w: string, x: char)
    requires w in Fields(s) && x in w
    ensures x in s
    decreases |s|
  {
    var t := TrimLeft(s);
    var k := WordLength(t);
    if w != t[..k] {
      FieldsChars(t[k..], w, x);
    }
  }

  /** Non-empty space-free words joined by single spaces are the fields. */
  lemma {:induction false} FieldsOfJoin(words: seq<string>)
    requires forall i :: 0 <= i < |words| ==> words[i] != [] && SpaceFree(words[i])
    ensures Fields(Join(words, ' ')) == words
  {
    if words != [] {
      var w := words[0];
      if |words| == 1 {
        FieldsOfWord(w);
      } else {
        FieldsOfJoin(words[1..]);
        FieldsStep(w, Join(words[1..], ' '));
      }
    }
  }

  lemma FieldsOfWord(w: string)
    requires w != [] && SpaceFree(w)
    ensures Fields(w) == [w]
  {
    assert WordLength(w) == |w|;
    assert w[|w|..] == [] && w[..|w|] == w;
    assert Fields([]) == [];
  }

  lemma FieldsStep(w: string, rest: string)
    requires w != [] && SpaceFree(w)
    ensures Fields(w + " " + rest) == [w] + Fields(rest)
  {
    var s := w + " " + rest;
    assert s[0] == w[0];
    WordPrefix(w, rest);
    assert s[|w|..] == " " + rest && s[..|w|] == w;
    assert (" " + rest)[1..] == rest;
    assert TrimLeft(" " + rest) == TrimLeft(rest);
  }

  lemma WordPrefix(w: string, rest: string)
    requires SpaceFree(w)
    ensures WordLength(w + " " + rest) == |w|
  {
    var s := w + " " + rest;
    var k := WordLength(s);
    assert s[|w|] == ' ';
    assert forall i :: 0 <= i < k ==> s[i] == s[..k][i];
    assert forall i :: 0 <= i < |w| ==> s[i] == w[i];
  }

  // ---- letter case ---------------------------------------------------------

  /** unicode.ToLower on ASCII, plus the two code points outside ASCII whose
      lower case is ASCII; other letters are left alone. */
  function LowerChar(c: char): char {
    if 'A' <= c <= 'Z' then (c as int + 32) as char
    else if c == '\U{130}' then 'i'
    else if c == '\U{212A}' then 'k'
    else c
  }

  function ToLower(s: string): (t: string)
    ensures |t| == |s|
    ensures forall i :: 0 <= i < |s| ==> t[i] == LowerChar(s[i])
  {
    seq(|s|, i requires 0 <= i < |s| => LowerChar(s[i]))
  }

  lemma ToLowerIdempotent(s: string)
    ensures ToLower(ToLower(s)) == ToLower(s)
  {
  }

  // ---- decimal numbers -----------------------------------------------------

  predicate IsDigit(c: char) {
    '0' <= c <= '9'
  }

  predicate IsAlphanumeric(c: char) {
    IsDigit(c) || 'A' <= c <= 'Z' || 'a' <= c <= 'z'
  }

  function DigitChar(d: nat): char
    requires d < 10
  {
    ('0' as int + d) as char
  }

  function DigitValue(c: char): (d: nat)
    requires IsDigit(c)
    ensures d < 10 && DigitChar(d) == c
  {
    c as int - '0' as int
  }

  function DigitsOf(s: string): (ds: seq<nat>)
    requires forall i :: 0 <= i < |s| ==> IsDigit(s[i])
    ensures |ds| == |s| && Radix.ValidDigits(ds, 10)
    ensures forall i :: 0 <= i < |s| ==> DigitChar(ds[i]) == s[i]
  {
    seq(|s|, i requires 0 <= i < |s| => DigitValue(s[i]))
  }

  /** strconv.Itoa for non-negative numbers (the %d verb). */
  function Itoa(n: nat): (s: string)
    ensures CanonicalDecimal(s)
  {
    if n == 0 then "0" else
      Radix.ValueOfDigits(n, 10);
      var ds := Radix.Digits(n, 10);
      seq(|ds|, i requires 0 <= i < |ds| => DigitChar(ds[i]))
  }

  /** Digits with no superfluous leading zero: `0|[1-9]\d*`. */
  predicate CanonicalDecimal(s: string) {
    s != [] && (forall i :: 0 <= i < |s| ==> IsDigit(s[i])) && (s[0] == '0' ==> |s| == 1)
  }

  /** The number a non-empty digit string denotes; None for anything else. */
  function ParseNat(s: string): Option<nat> {
    if s != [] && forall i :: 0 <= i < |s| ==> IsDigit(s[i])
    then Some(Radix.Value(DigitsOf(s), 10)) else None
  }

  /** Reading back a printed number. */
  lemma ParseOfItoa(n: nat)
    ensures ParseNat(Itoa(n)) == Some(n)
  {
    if n == 0 {
      assert DigitsOf("0") == [0];
      assert Radix.Value([0], 10) == 0;
    } else {
      Radix.ValueOfDigits(n, 10);
      hide Radix.Digits, Radix.Value;
      assert DigitsOf(Itoa(n)) == Radix.Digits(n, 10);
    }
  }

  /** A canonical decimal is the print of its own value. */
  lemma ItoaOfParse(s: string)
    requires CanonicalDecimal(s)
    ensures ParseNat(s).Some? && Itoa(ParseNat(s).value) == s
  {
    var ds := DigitsOf(s);
    if s[0] == '0' {
      assert ds == [0];
      assert Radix.Value([0], 10) == 0;
    } else {
      assert DigitChar(ds[0]) == s[0];
      Radix.ValuePositive(ds, 10);
      Radix.DigitsOfValue(ds, 10);
    }
  }

  lemma ItoaInjective(m: nat, n: nat)
    ensures Itoa(m) == Itoa(n) <==> m == n
  {
    ParseOfItoa(m);
    ParseOfItoa(n);
  }

  // ---- order ---------------------------------------------------------------

  /** Go's `<=` on strings: code-point order, which is byte order in UTF-8. */
  predicate StringLe(a: string, b: string) {
    a == [] || (b != [] && (a[0] < b[0] || (a[0] == b[0] && StringLe(a[1..], b[1..]))))
  }

  /** The texts agree before k, and a is less there. */
  ghost predicate LessAt(a: string, b: string, k: nat) {
    k < |a| && k < |b| && a[k] < b[k] && forall j :: 0 <= j < k ==> a[j] == b[j]
  }

  lemma LessLater(a: string, b: string, k: nat)
    requires a != "" && b != ""
    ensures LessAt(a, b, k + 1) <==> a[0] == b[0] && LessAt(a[1..], b[1..], k)
  {
    if a[0] == b[0] && LessAt(a[1..], b[1..], k) {
      forall j | 0 <= j < k + 1 ensures a[j] == b[j] {
        assert j > 0 ==> a[1..][j - 1] == b[1..][j - 1];
      }
    }
  }

  lemma PrefixLater(a: string, b: string)
    requires a != "" && b != ""
    ensures a <= b <==> a[0] == b[0] && a[1..] <= b[1..]
  {
    assert a == [a[0]] + a[1..] && b == [b[0]] + b[1..];
  }

  /** a is not after b: it is the beginning of b, or less where they first differ. */
  lemma {:induction false} StringLeExactly(a: string, b: string)
    ensures StringLe(a, b) <==> a <= b || exists k: nat :: LessAt(a, b, k)
  {
    if a != "" && b != "" {
      StringLeExactly(a[1..], b[1..]);
      PrefixLater(a, b);
      assert LessAt(a, b, 0) <==> a[0] < b[0];
      hide LessAt;
      if k: nat :| LessAt(a[1..], b[1..], k) {
        LessLater(a, b, k);
      }
      if k: nat :| LessAt(a, b, k) {
        if k > 0 {
          LessLater(a, b, k - 1);
        }
      }
    }
  }

  lemma {:induction false} StringLeTotal(a: string, b: string)
    ensures StringLe(a, b) || StringLe(b, a)
    ensures StringLe(a, b) && StringLe(b, a) ==> a == b
    ensures a == b ==> StringLe(a, b)
  {
    if a != [] && b != [] {
      StringLeTotal(a[1..], b[1..]);
      assert a == [a[0]] + a[1..] && b == [b[0]] + b[1..];
    }
  }

  lemma {:induction false} StringLeTransitive(a: string, b: string, c: string)
    requires StringLe(a, b) && StringLe(b, c)
    ensures StringLe(a, c)
  {
    if a != [] && b[0] == a[0] == c[0] {
      StringLeTransitive(a[1..], b[1..], c[1..]);
    }
  }
}
