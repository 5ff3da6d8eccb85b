/** Models of the Python built-ins that the page-selection and packaging code
    relies on: `str.split` with a one-character separator, `int()` and `str()`
    between integers and decimal text, `range`, `min`/`max` of a list, `zip`,
    a `dict` built from pairs, and `list(set(...))`. */
module Builtins {

  datatype Option<T> = None | Some(value: T)

  /** The elements of a list, as a set: `set(s)`. */
  function Elems<T>(s: seq<T>): set<T> {
    set x | x in s
  }

  /** No element occurs twice. */
  predicate Distinct<T(==)>(s: seq<T>) {
    forall i, j :: 0 <= i < j < |s| ==> s[i] != s[j]
  }

  // ---------------------------------------------------------------------------
  // str.split(sep)

  /** The position of the first `sep` in `s`. */
  function IndexOf(s: string, sep: char): (i: nat)
    requires sep in s
    ensures i < |s| && s[i] == sep && sep !in s[..i]
    decreases |s|
  {
    if s[0] == sep then 0
    else
      assert s == [s[0]] + s[1..];
      var j := IndexOf(s[1..], sep);
      assert s[..j + 1] == [s[0]] + s[1..][..j];
      j + 1
  }

  /** `s.split(sep)`: the fields between the occurrences of `sep`. There is
      always one field more than there are separators, so `"".split(",")` is
      `[""]`, and no field contains the separator. */
  function Split(s: string, sep: char): (fields: seq<string>)
    ensures |fields| == multiset(s)[sep] + 1
    ensures forall f <- fields :: sep !in f
    decreases |s|
  {
    if sep !in s then [s]
    else
      var i := IndexOf(s, sep);
      assert s == s[..i] + [sep] + s[i + 1..];
      [s[..i]] + Split(s[i + 1..], sep)
  }

  /** A text without the separator is a single field. */
  lemma SplitWithoutSep(s: string, sep: char)
    requires sep !in s
    ensures Split(s, sep) == [s]
  {
  }

  /** Two separator-free texts joined by one separator split back into the two. */
  lemma SplitPair(a: string, b: string, sep: char)
    requires sep !in a && sep !in b
    ensures Split(a + [sep] + b, sep) == [a, b]
  {
    var s := a + [sep] + b;
    assert s[|a|] == sep;
    var i := IndexOf(s, sep);
    assert s[..i] == a && s[i + 1..] == b;
  }

  /** `sep.join(fields)`, the inverse of `Split`. */
  function Join(fields: seq<string>, sep: char): string
    requires |fields| >= 1
    decreases |fields|
  {
    if |fields| == 1 then fields[0] else fields[0] + [sep] + Join(fields[1..], sep)
  }

  /** Splitting loses nothing: joining the fields back gives the input. */
  lemma {:induction false} SplitJoin(s: string, sep: char)
    ensures Join(Split(s, sep), sep) == s
    decreases |s|
  {
    if sep in s {
      var i := IndexOf(s, sep);
      var rest := Split(s[i + 1..], sep);
      SplitJoin(s[i + 1..], sep);
      var fields := [s[..i]] + rest;
      assert Split(s, sep) == fields;
      assert |fields| >= 2 && fields[0] == s[..i] && fields[1..] == rest;
      assert Join(fields, sep) == s[..i] + [sep] + Join(rest, sep);
      assert s == s[..i] + [sep] + s[i + 1..];
    }
  }

  // ---------------------------------------------------------------------------
  // int(s) on a string

  /** The characters `int()` skips around ASCII text: space, tab, line
      feed, vertical tab, form feed and carriage return. The separators
      `\x1c` to `\x1f`, for which `str.isspace` also holds, are not among
      them, so `int("\x1c5")` is a `ValueError`. */
  predicate IsSpace(c: char) {
    c == ' ' || ('\t' <= c <= '\r')
  }

  /** Drops the leading characters `int()` skips (`IsSpace`) and nothing
      else. */
  function StripLeft(s: string): string
    decreases |s|
  {
    if s != [] && IsSpace(s[0]) then StripLeft(s[1..]) else s
  }

  /** What `StripLeft` keeps is a suffix of the text, everything before it
      is `IsSpace`, and it does not start with an `IsSpace` character. */
  lemma {:induction false} StripLeftSuffix(s: string)
    ensures var r := StripLeft(s);
      |r| <= |s| && r == s[|s| - |r|..] &&
      (forall i :: 0 <= i < |s| - |r| ==> IsSpace(s[i])) &&
      (r == [] || !IsSpace(r[0]))
    decreases |s|
  {
    if s != [] && IsSpace(s[0]) {
      StripLeftSuffix(s[1..]);
    }
  }

  /** Drops the trailing characters `int()` skips (`IsSpace`) and nothing
      else. */
  function StripRight(s: string): string
    decreases |s|
  {
    if s != [] && IsSpace(s[|s| - 1]) then StripRight(s[..|s| - 1]) else s
  }

  /** What `StripRight` keeps is a prefix of the text, everything after it
      is `IsSpace`, and it does not end with an `IsSpace` character. */
  lemma {:induction false} StripRightPrefix(s: string)
    ensures var r := StripRight(s);
      |r| <= |s| && r == s[..|r|] &&
      (forall i :: |r| <= i < |s| ==> IsSpace(s[i])) &&
      (r == [] || !IsSpace(r[|r| - 1]))
    decreases |s|
  {
    if s != [] && IsSpace(s[|s| - 1]) {
      StripRightPrefix(s[..|s| - 1]);
    }
  }

  /** Drops the characters `int()` skips (`IsSpace`) at both ends. Unlike
      Python's `str.strip`, it keeps `\x1c` to `\x1f` and non-ASCII spaces. */
  function Strip(s: string): string {
    StripRight(StripLeft(s))
  }

  predicate IsDigit(c: char) {
    '0' <= c <= '9'
  }

  /** A non-empty run of ASCII decimal digits. */
  predicate IsDigits(s: string) {
    |s| > 0 && forall c <- s :: IsDigit(c)
  }

  function DigitValue(c: char): nat
    requires IsDigit(c)
  {
    (c as int) - ('0' as int)
  }

  /** The value of a digit string read in base 10, most significant digit first. */
  function DigitsValue(s: string): nat
    requires forall c <- s :: IsDigit(c)
    decreases |s|
  {
    if s == [] then 0 else 10 * DigitsValue(s[..|s| - 1]) + DigitValue(s[|s| - 1])
  }

  /** `int(s)`: the surrounding `IsSpace` characters are ignored; what
      remains must be an optional sign followed by at least one ASCII digit
      (leading zeros are allowed), otherwise Python raises `ValueError`,
      modelled as `None`. */
  function ParseInt(s: string): Option<int> {
    var t := Strip(s);
    if |t| > 0 && (t[0] == '+' || t[0] == '-') then
      if IsDigits(t[1..]) then
        var v: int := DigitsValue(t[1..]);
        Some(if t[0] == '-' then -v else v)
      else None
    else if IsDigits(t) then Some(DigitsValue(t))
    else None
  }

  /** A string without a minus sign never denotes a negative number. */
  lemma ParseIntNonNegative(s: string)
    requires '-' !in s
    ensures ParseInt(s).Some? ==> ParseInt(s).value >= 0
  {
    var t, l := Strip(s), StripLeft(s);
    StripLeftSuffix(s);
    StripRightPrefix(l);
    if |t| > 0 {
      assert t[0] == l[0] == s[|s| - |l|];
    }
  }

  /** Text whose first character is neither whitespace `int()` skips, nor
      a sign, nor a digit is never an integer: `int("\x1c5")` and
      `int("a5")` are `ValueError`s. */
  lemma {:induction false} ParseIntBadLead(s: string)
    requires s != [] && !IsSpace(s[0]) && !IsDigit(s[0]) && s[0] != '+' && s[0] != '-'
    ensures ParseInt(s) == None
  {
    assert StripLeft(s) == s;
    StripRightPrefix(s);
    var t := Strip(s);
    if t != [] {
      assert t[0] == s[0];
    }
  }

  /** Text without a single decimal digit is never an integer. */
  lemma ParseIntNeedsDigit(s: string)
    requires forall c <- s :: !IsDigit(c)
    ensures ParseInt(s) == None
  {
    var l := StripLeft(s);
    var t := Strip(s);
    StripLeftSuffix(s);
    StripRightPrefix(l);
    if |t| > 0 {
      var k := if t[0] == '+' || t[0] == '-' then 1 else 0;
      if k < |t| {
        assert t[k] == l[k] == s[|s| - |l| + k];
        assert t[k] in t[k..];
      }
    }
  }

  // ---------------------------------------------------------------------------
  // str(n) and f"{n}" for an integer

  function DigitChar(d: nat): (c: char)
    requires d < 10
    ensures IsDigit(c) && DigitValue(c) == d
  {
    ('0' as int + d) as char
  }

  /** The decimal text of `n`, without sign or leading zeros; reading it back
      in base 10 gives `n`. */
  function NatToString(n: nat): (s: string)
    ensures IsDigits(s)
    ensures DigitsValue(s) == n
    decreases n
  {
    if n < 10 then [DigitChar(n)]
    else
      var s := NatToString(n / 10) + [DigitChar(n % 10)];
      assert s[..|s| - 1] == NatToString(n / 10);
      s
  }

  /** `str(n)` is the canonical decimal text: it starts with `0` only
      when `n` is 0, so no other digit run with value `n` (such as `"07"`)
      is produced. */
  lemma {:induction false} NatToStringCanonical(n: nat)
    ensures NatToString(n)[0] == '0' <==> n == 0
    decreases n
  {
    if n >= 10 {
      NatToStringCanonical(n / 10);
      assert NatToString(n)[0] == NatToString(n / 10)[0];
    }
  }

  /** The decimal text of an integer, with a leading `-` when negative. */
  function IntToString(n: int): string {
    if n < 0 then "-" + NatToString(-n) else NatToString(n)
  }

  /** `StripLeft` removes an `IsSpace` prefix and stops at the first other character. */
  lemma {:induction false} StripLeftSpaces(before: string, rest: string)
    requires forall c <- before :: IsSpace(c)
    requires rest == [] || !IsSpace(rest[0])
    ensures StripLeft(before + rest) == rest
    decreases |before|
  {
    if before != [] {
      assert (before + rest)[1..] == before[1..] + rest;
      assert before[0] in before;
      StripLeftSpaces(before[1..], rest);
    }
  }

  /** `StripRight` removes an `IsSpace` suffix and stops at the last other character. */
  lemma {:induction false} StripRightSpaces(rest: string, after: string)
    requires forall c <- after :: IsSpace(c)
    requires rest == [] || !IsSpace(rest[|rest| - 1])
    ensures StripRight(rest + after) == rest
    decreases |after|
  {
    if after == [] {
      assert rest + after == rest;
    } else {
      var s := rest + after;
      assert s[..|s| - 1] == rest + after[..|after| - 1];
      assert after[|after| - 1] in after;
      StripRightSpaces(rest, after[..|after| - 1]);
    }
  }

  /** `int(str(n)) == n`, also with `IsSpace` characters around the digits. */
  lemma ParseIntOfNatToString(n: nat, before: string, after: string)
    requires forall c <- before :: IsSpace(c)
    requires forall c <- after :: IsSpace(c)
    ensures ParseInt(before + NatToString(n) + after) == Some(n)
  {
    var d := NatToString(n);
    assert d[0] in d && d[|d| - 1] in d;
    assert before + d + after == before + (d + after);
    StripLeftSpaces(before, d + after);
    StripRightSpaces(d, after);
    ParseIntOfDigits(before + d + after);
  }

  /** The decimal text of `n` reads back as `n`. */
  lemma ParseIntOfNat(n: nat)
    ensures ParseInt(NatToString(n)) == Some(n)
  {
    ParseIntOfDigitText(NatToString(n));
  }

  /** A run of digits reads as its value. */
  lemma ParseIntOfDigitText(d: string)
    requires IsDigits(d)
    ensures ParseInt(d) == Some(DigitsValue(d))
  {
    assert !IsSpace(d[0]) && !IsSpace(d[|d| - 1]) by {
      assert d[0] in d && d[|d| - 1] in d;
    }
    assert StripLeft(d) == d;
    assert StripRight(d) == d;
    ParseIntOfDigits(d);
  }

  /** Text that `Strip` reduces to a run of digits reads as their value. */
  lemma ParseIntOfDigits(s: string)
    requires IsDigits(Strip(s))
    ensures ParseInt(s) == Some(DigitsValue(Strip(s)))
  {
    var t := Strip(s);
    assert t[0] in t;
  }

  /** Different numbers have different decimal texts. */
  lemma NatToStringInjective(a: nat, b: nat)
    requires NatToString(a) == NatToString(b)
    ensures a == b
  {
    assert DigitsValue(NatToString(a)) == a;
  }

  // ---------------------------------------------------------------------------
  // range, min, max, zip, dict, list(set(...))

  /** `list(range(lo, hi))`: the integers from `lo` up to but excluding `hi`,
      ascending; empty when `hi <= lo`. */
  function Range(lo: int, hi: int): (r: seq<int>)
    ensures |r| == if lo < hi then hi - lo else 0
    ensures forall x :: x in r <==> lo <= x < hi
    ensures forall i :: 0 <= i < |r| ==> r[i] == lo + i
    decreases hi - lo
  {
    if hi <= lo then [] else [lo] + Range(lo + 1, hi)
  }

  /** `[f(x) for x in xs]`. */
  function Map<A, B>(f: A -> B, xs: seq<A>): (ys: seq<B>)
    ensures |ys| == |xs|
    ensures forall i :: 0 <= i < |xs| ==> ys[i] == f(xs[i])
  {
    seq(|xs|, i requires 0 <= i < |xs| => f(xs[i]))
  }

  /** Mapping a list is mapping all but its last element, then the last. */
  lemma MapLast<A, B>(f: A -> B, xs: seq<A>)
    requires xs != []
    ensures Map(f, xs) == Map(f, xs[..|xs| - 1]) + [f(xs[|xs| - 1])]
  {
    var n := |xs| - 1;
    forall i | 0 <= i < n
      ensures Map(f, xs)[i] == Map(f, xs[..n])[i]
    {
      assert xs[..n][i] == xs[i];
    }
  }

  /** `min(s)` of a non-empty list. */
  function SeqMin(s: seq<int>): (m: int)
    requires s != []
    ensures m in s && forall x <- s :: m <= x
    decreases |s|
  {
    if |s| == 1 then s[0]
    else
      var m := SeqMin(s[1..]);
      assert s == [s[0]] + s[1..];
      if s[0] <= m then s[0] else m
  }

  /** `max(s)` of a non-empty list. */
  function SeqMax(s: seq<int>): (m: int)
    requires s != []
    ensures m in s && forall x <- s :: x <= m
    decreases |s|
  {
    if |s| == 1 then s[0]
    else
      var m := SeqMax(s[1..]);
      assert s == [s[0]] + s[1..];
      if s[0] >= m then s[0] else m
  }

  /** `zip(xs, ys)`: pairs up to the length of the shorter argument. */
  function Zip<X, Y>(xs: seq<X>, ys: seq<Y>): seq<(X, Y)> {
    seq(if |xs| <= |ys| then |xs| else |ys|, i requires 0 <= i < |xs| && 0 <= i < |ys| => (xs[i], ys[i]))
  }

  /** `{k: v for k, v in pairs}`: later pairs overwrite earlier ones. */
  function DictOf<K, V>(pairs: seq<(K, V)>): map<K, V>
    decreases |pairs|
  {
    if pairs == [] then map[]
    else
      var last := pairs[|pairs| - 1];
      DictOf(pairs[..|pairs| - 1])[last.0 := last.1]
  }

  /** Some pair has key `k`. */
  ghost predicate HasKey<K, V>(pairs: seq<(K, V)>, k: K) {
    exists i :: 0 <= i < |pairs| && pairs[i].0 == k
  }

  /** The dictionary's keys are exactly the keys of the pairs; with distinct
      keys nothing is overwritten, so each key keeps its own value. */
  lemma {:induction false} DictOfDistinctKeys<K, V>(pairs: seq<(K, V)>)
    requires forall i, j :: 0 <= i < j < |pairs| ==> pairs[i].0 != pairs[j].0
    ensures forall k :: k in DictOf(pairs) <==> HasKey(pairs, k)
    ensures forall i :: 0 <= i < |pairs| ==> pairs[i].0 in DictOf(pairs) && DictOf(pairs)[pairs[i].0] == pairs[i].1
    decreases |pairs|
  {
    if pairs != [] {
      var n := |pairs| - 1;
      var init := pairs[..n];
      DictOfDistinctKeys(init);
      forall k
        ensures k in DictOf(pairs) <==> HasKey(pairs, k)
      {
        if k == pairs[n].0 {
          assert pairs[n].0 == k;
        } else if k in DictOf(init) {
          var i :| 0 <= i < |init| && init[i].0 == k;
          assert pairs[i].0 == k;
        }
      }
      forall i | 0 <= i < |pairs|
        ensures pairs[i].0 in DictOf(pairs) && DictOf(pairs)[pairs[i].0] == pairs[i].1
      {
        if i < n {
          assert init[i] == pairs[i];
        }
      }
    }
  }

  /** `list(set(s))`: every element of `s` exactly once. Python orders the
      list by the set's hashing; the order kept here (first occurrences) is
      only a stand-in for it, and nothing is promised about the order. */
  function Dedup(s: seq<int>): (r: seq<int>)
    ensures Distinct(r)
    ensures forall x :: x in r <==> x in s
    decreases |s|
  {
    if s == [] then []
    else
      var init := s[..|s| - 1];
      var r := Dedup(init);
      assert s == init + [s[|s| - 1]];
      if s[|s| - 1] in r then r else r + [s[|s| - 1]]
  }
}
