/**
 * The few Python string operations the collector relies on, over strings
 * of characters: `str.split` with a one-character separator, its inverse
 * `join`, `str.isdigit` and `int()` of a digit string.
 *
 * Digits are the ASCII digits '0'..'9' only; Python's `str.isdigit` and the
 * regular-expression class `\d` also accept other Unicode digits, which the
 * model does not.
 */
module Text {

  /** One ASCII decimal digit. */
  predicate IsDigit(c: char) {
    '0' <= c <= '9'
  }

  /** Python's `s.isdigit()`: non-empty and made of digits only. */
  predicate IsDigits(s: string) {
    |s| > 0 && forall k :: 0 <= k < |s| ==> IsDigit(s[k])
  }

  /** Every character is a digit (the empty string included). */
  predicate AllDigits(s: string) {
    forall k :: 0 <= k < |s| ==> IsDigit(s[k])
  }

  /** Ten to the power n. */
  function Pow10(n: nat): (p: nat)
    ensures p >= 1
  {
    if n == 0 then 1 else 10 * Pow10(n - 1)
  }

  /** Python's `int(s)` for a string of digits: its decimal value, below 10 to the length. */
  function Value(s: string): (v: nat)
    requires AllDigits(s)
    ensures v < Pow10(|s|)
  {
    if s == [] then 0
    else 10 * Value(s[..|s| - 1]) + (s[|s| - 1] as int - '0' as int)
  }

  /** Python's `s.split(sep)`: the pieces between the separators, never an empty list. */
  function Split(s: string, sep: char): (parts: seq<string>)
    ensures |parts| >= 1
    decreases |s|
  {
    if s == [] then [[]]
    else PushChar(s[0], Split(s[1..], sep), sep)
  }

  /** The split of `[c] + t`, given the split `rest` of `t`. */
  function PushChar(c: char, rest: seq<string>, sep: char): seq<string>
    requires |rest| >= 1
  {
    if c == sep then [[]] + rest
    else [[c] + rest[0]] + rest[1..]
  }

  /** No piece holds the separator, and there is one piece exactly when the string has none. */
  lemma {:induction false} SplitPieces(s: string, sep: char)
    ensures forall k :: 0 <= k < |Split(s, sep)| ==> sep !in Split(s, sep)[k]
    ensures |Split(s, sep)| == 1 <==> sep !in s
    decreases |s|
  {
    if s != [] {
      SplitPieces(s[1..], sep);
      var rest := Split(s[1..], sep);
      if s[0] != sep {
        assert forall k :: 1 <= k < |Split(s, sep)| ==> Split(s, sep)[k] == rest[k];
      } else {
        assert forall k :: 1 <= k < |Split(s, sep)| ==> Split(s, sep)[k] == rest[k - 1];
      }
      assert s == [s[0]] + s[1..];
    }
  }

  /** Python's `sep.join(parts)`: the pieces with one separator between neighbours. */
  function Join(parts: seq<string>, sep: char): string
    requires |parts| >= 1
  {
    if |parts| == 1 then parts[0]
    else parts[0] + [sep] + Join(parts[1..], sep)
  }

  /** A join of digit strings is made of digits and separators, two characters per piece but one. */
  lemma {:induction false} JoinOfDigits(parts: seq<string>, sep: char)
    requires |parts| >= 1
    requires forall k :: 0 <= k < |parts| ==> IsDigits(parts[k])
    ensures |Join(parts, sep)| >= 2 * |parts| - 1
    ensures forall k :: 0 <= k < |Join(parts, sep)| ==>
      IsDigit(Join(parts, sep)[k]) || Join(parts, sep)[k] == sep
  {
    if |parts| > 1 {
      JoinOfDigits(parts[1..], sep);
      var p, rest := parts[0], Join(parts[1..], sep);
      assert IsDigits(p);
      forall k | 0 <= k < |Join(parts, sep)|
        ensures IsDigit(Join(parts, sep)[k]) || Join(parts, sep)[k] == sep
      {
        if k < |p| {
          assert Join(parts, sep)[k] == p[k];
        } else if k > |p| {
          assert Join(parts, sep)[k] == rest[k - |p| - 1];
        }
      }
    }
  }

  /** Splitting a string that has no separator gives that string alone. */
  lemma {:induction false} SplitNoSeparator(a: string, sep: char)
    requires sep !in a
    ensures Split(a, sep) == [a]
  {
    if a != [] {
      SplitNoSeparator(a[1..], sep);
      assert a == [a[0]] + a[1..];
    }
  }

  /** A separator after a separator-free prefix ends the first piece. */
  lemma {:induction false} SplitAfterSeparator(a: string, b: string, sep: char)
    requires sep !in a
    ensures Split(a + [sep] + b, sep) == [a] + Split(b, sep)
  {
    var s := a + [sep] + b;
    if a == [] {
      assert s[1..] == b;
    } else {
      assert s[1..] == a[1..] + [sep] + b;
      SplitAfterSeparator(a[1..], b, sep);
      assert [a[0]] + a[1..] == a;
    }
  }

  /** Joining the pieces of a split gives back the string. */
  lemma {:induction false} JoinSplit(s: string, sep: char)
    ensures Join(Split(s, sep), sep) == s
    decreases |s|
  {
    if sep !in s {
      SplitNoSeparator(s, sep);
    } else {
      var j := FirstIndex(s, sep);
      assert s == s[..j] + [sep] + s[j + 1..];
      SplitAfterSeparator(s[..j], s[j + 1..], sep);
      JoinSplit(s[j + 1..], sep);
      var parts := Split(s, sep);
      assert parts[1..] == Split(s[j + 1..], sep);
    }
  }

  /** Splitting a join of separator-free pieces gives back the pieces. */
  lemma {:induction false} SplitJoin(parts: seq<string>, sep: char)
    requires |parts| >= 1
    requires forall k :: 0 <= k < |parts| ==> sep !in parts[k]
    ensures Split(Join(parts, sep), sep) == parts
  {
    if |parts| == 1 {
      SplitNoSeparator(parts[0], sep);
    } else {
      SplitJoin(parts[1..], sep);
      SplitAfterSeparator(parts[0], Join(parts[1..], sep), sep);
      assert [parts[0]] + parts[1..] == parts;
    }
  }

  /** A string with a separator is its first piece, the separator, and the join of the other pieces. */
  lemma SplitFirst(s: string, sep: char)
    requires |Split(s, sep)| >= 2
    ensures var parts := Split(s, sep);
      && s == parts[0] + [sep] + Join(parts[1..], sep)
      && Split(Join(parts[1..], sep), sep) == parts[1..]
  {
    var parts := Split(s, sep);
    JoinSplit(s, sep);
    SplitPieces(s, sep);
    forall k | 0 <= k < |parts[1..]| ensures sep !in parts[1..][k] {
      assert parts[1..][k] == parts[k + 1];
    }
    SplitJoin(parts[1..], sep);
  }

  /** The position of the first separator in a string that has one. */
  function FirstIndex(s: string, sep: char): (j: nat)
    requires sep in s
    ensures j < |s| && s[j] == sep && sep !in s[..j]
  {
    if s[0] == sep then 0
    else
      assert sep in s[1..];
      var j := 1 + FirstIndex(s[1..], sep);
      assert s[..j] == [s[0]] + s[1..][..j - 1];
      j
  }

  /** Leading zeros do not change the decimal value. */
  lemma {:induction false} LeadingZeroValue(s: string)
    requires AllDigits(s)
    ensures AllDigits(['0'] + s) && Value(['0'] + s) == Value(s)
    decreases |s|
  {
    var z := ['0'] + s;
    if s != [] {
      assert z[..|z| - 1] == ['0'] + s[..|s| - 1];
      LeadingZeroValue(s[..|s| - 1]);
    } else {
      assert z[..|z| - 1] == [];
    }
  }

}
