/**
 * The output step: `sorted(all_ips)` in Python's string order, written one
 * address per line. Python compares strings code point by code point, and a
 * proper prefix comes first.
 */
module Output {
  import opened Text

  /** Python's `a < b` on strings. */
  predicate Below(a: string, b: string)
    decreases |a|
  {
    if a == [] then b != []
    else b != [] && (a[0] < b[0] || (a[0] == b[0] && Below(a[1..], b[1..])))
  }

  /** No string is below itself. */
  lemma {:induction false} BelowIrreflexive(a: string)
    ensures !Below(a, a)
    decreases |a|
  {
    if a != [] {
      BelowIrreflexive(a[1..]);
    }
  }

  /** The order is transitive. */
  lemma {:induction false} BelowTransitive(a: string, b: string, c: string)
    requires Below(a, b) && Below(b, c)
    ensures Below(a, c)
    decreases |a|
  {
    if a != [] && a[0] == b[0] && b[0] == c[0] {
      BelowTransitive(a[1..], b[1..], c[1..]);
    }
  }

  /** Any two different strings are ordered one way, and never both. */
  lemma {:induction false} BelowTotal(a: string, b: string)
    ensures a != b <==> Below(a, b) || Below(b, a)
    ensures !(Below(a, b) && Below(b, a))
    decreases |a|
  {
    if a != [] && b != [] {
      BelowTotal(a[1..], b[1..]);
      if a[0] == b[0] && a[1..] == b[1..] {
        assert a == [a[0]] + a[1..] && b == [b[0]] + b[1..];
      }
    } else if a == [] {
      if b == [] {
      }
    }
  }

  /** Strictly increasing: the sort order, with no address twice. */
  predicate Ascending(s: seq<string>) {
    forall i, j :: 0 <= i < j < |s| ==> Below(s[i], s[j])
  }

  /** The least element of a non-empty set of strings. */
  method Least(candidates: set<string>) returns (m: string)
    requires candidates != {}
    ensures m in candidates
    ensures forall x :: x in candidates && x != m ==> Below(m, x)
  {
    m :| m in candidates;
    var todo := candidates - {m};
    while todo != {}
      invariant m in candidates && todo <= candidates
      invariant forall x :: x in candidates - todo && x != m ==> Below(m, x)
      decreases |todo|
    {
      var x :| x in todo;
      if Below(x, m) {
        forall y | y in candidates - todo && y != x
          ensures Below(x, y)
        {
          if y != m {
            BelowTransitive(x, m, y);
          }
        }
        m := x;
      } else if x != m {
        BelowTotal(x, m);
      }
      todo := todo - {x};
    }
  }

  /**
   * `sorted(all_ips)`: every address of the set exactly once, in ascending
   * string order.
   */
  method SortAddresses(all: set<string>) returns (lines: seq<string>)
    ensures Ascending(lines)
    ensures forall ip :: ip in lines <==> ip in all
    ensures |lines| == |all|
  {
    lines := [];
    var rest := all;
    while rest != {}
      invariant rest <= all
      invariant forall ip :: ip in all <==> ip in rest || ip in lines
      invariant forall ip :: ip in rest ==> ip !in lines
      invariant forall k, ip :: 0 <= k < |lines| && ip in rest ==> Below(lines[k], ip)
      invariant Ascending(lines)
      invariant |lines| + |rest| == |all|
      decreases |rest|
    {
      var m := Least(rest);
      forall k, ip | 0 <= k < |lines| && ip in rest - {m}
        ensures Below(lines[k], ip)
      {
      }
      lines := lines + [m];
      rest := rest - {m};
    }
  }

  /** An ascending sequence holds no address twice. */
  lemma AscendingDistinct(s: seq<string>)
    requires Ascending(s)
    ensures forall i, j :: 0 <= i < j < |s| ==> s[i] != s[j]
  {
    forall i, j | 0 <= i < j < |s| ensures s[i] != s[j] {
      BelowTotal(s[i], s[j]);
    }
  }

  /** An address of an ascending sequence occurs in it exactly once. */
  lemma {:induction false} AscendingOnce(s: seq<string>, x: string)
    requires Ascending(s) && x in s
    ensures multiset(s)[x] == 1
  {
    assert s == [s[0]] + s[1..];
    assert Ascending(s[1..]) by {
      forall i, j | 0 <= i < j < |s[1..]| ensures Below(s[1..][i], s[1..][j]) {
        assert s[1..][i] == s[i + 1] && s[1..][j] == s[j + 1];
      }
    }
    if x == s[0] {
      if x in s[1..] {
        var p :| 0 <= p < |s[1..]| && s[1..][p] == x;
        assert Below(s[0], s[p + 1]);
        BelowIrreflexive(x);
      }
    } else {
      AscendingOnce(s[1..], x);
    }
  }

  /**
   * The sorted list is determined by its elements: two ascending sequences
   * holding the same addresses are equal. So the lines depend on the set
   * alone, not on how it was built.
   */
  lemma {:induction false} AscendingUnique(a: seq<string>, b: seq<string>)
    requires Ascending(a) && Ascending(b)
    requires forall x :: x in a <==> x in b
    ensures a == b
    decreases |a|
  {
    EmptyTogether(a, b);
    if a != [] {
      assert a[0] in b;
      assert b[0] in a;
      var i :| 0 <= i < |b| && b[i] == a[0];
      var j :| 0 <= j < |a| && a[j] == b[0];
      if i != 0 && j != 0 {
        BelowTotal(a[0], b[0]);
      } else if i != 0 {
        BelowIrreflexive(a[0]);
      } else if j != 0 {
        BelowIrreflexive(b[0]);
      }
      assert a[0] == b[0];
      forall x ensures x in a[1..] <==> x in b[1..] {
        if x in a[1..] {
          var p :| 0 <= p < |a[1..]| && a[1..][p] == x;
          assert a[p + 1] == x && Below(a[0], a[p + 1]);
          BelowIrreflexive(x);
          assert x in a;
          var q :| 0 <= q < |b| && b[q] == x;
          assert q != 0 && b[1..][q - 1] == x;
        }
        if x in b[1..] {
          var p :| 0 <= p < |b[1..]| && b[1..][p] == x;
          assert b[p + 1] == x && Below(b[0], b[p + 1]);
          BelowIrreflexive(x);
          assert x in b;
          var q :| 0 <= q < |a| && a[q] == x;
          assert q != 0 && a[1..][q - 1] == x;
        }
      }
      AscendingUnique(a[1..], b[1..]);
      assert a == [a[0]] + a[1..] && b == [b[0]] + b[1..];
    }
  }

  /** Two sequences with the same elements are both empty or both not. */
  lemma EmptyTogether(a: seq<string>, b: seq<string>)
    requires forall x :: x in a <==> x in b
    ensures a == [] <==> b == []
  {
    if a != [] {
      assert a[0] in b;
    }
    if b != [] {
      assert b[0] in a;
    }
  }

  /** The file's text: each line followed by a line break. */
  function FileText(lines: seq<string>): string {
    if lines == [] then "" else lines[0] + "\n" + FileText(lines[1..])
  }

  /** The loop `for ip in sorted(all_ips): file.write(ip + '\n')`, front to back. */
  method WriteLines(lines: seq<string>) returns (content: string)
    ensures content == FileText(lines)
  {
    content := "";
    var i := 0;
    while i < |lines|
      invariant 0 <= i <= |lines|
      invariant content == FileText(lines[..i])
    {
      FileTextAppend(lines[..i], lines[i]);
      assert lines[..i + 1] == lines[..i] + [lines[i]];
      content := content + lines[i] + "\n";
      i := i + 1;
    }
    assert lines[..i] == lines;
  }

  /** Writing one more line appends it and its line break to the text. */
  lemma {:induction false} FileTextAppend(lines: seq<string>, line: string)
    ensures FileText(lines + [line]) == FileText(lines) + line + "\n"
  {
    if lines == [] {
      assert [line][1..] == [];
    } else {
      assert (lines + [line])[1..] == lines[1..] + [line];
      FileTextAppend(lines[1..], line);
    }
  }

  /** Reading the written file back, line by line, gives the lines (and an empty piece after the last break). */
  lemma {:induction false} FileTextLines(lines: seq<string>)
    requires forall k :: 0 <= k < |lines| ==> '\n' !in lines[k]
    ensures Split(FileText(lines), '\n') == lines + [""]
  {
    if lines != [] {
      FileTextLines(lines[1..]);
      SplitAfterSeparator(lines[0], FileText(lines[1..]), '\n');
      assert FileText(lines) == lines[0] + ['\n'] + FileText(lines[1..]);
      assert lines == [lines[0]] + lines[1..];
    }
  }

  /** String order, not numeric order: "10.0.0.1" comes before "9.0.0.1", and "1.2.3.4" before "10.0.0.1". */
  lemma OrderExamples()
    ensures Below("10.0.0.1", "9.0.0.1")
    ensures Below("1.2.3.4", "10.0.0.1")
  {
    assert "1.2.3.4"[1..] == ".2.3.4" && "10.0.0.1"[1..] == "0.0.0.1";
  }

  /** So the set {"10.0.0.1", "9.0.0.1"} is written as "10.0.0.1" then "9.0.0.1". */
  lemma SortedExample(lines: seq<string>)
    requires Ascending(lines)
    requires forall x :: x in lines <==> x in {"10.0.0.1", "9.0.0.1"}
    ensures lines == ["10.0.0.1", "9.0.0.1"]
  {
    OrderExamples();
    AscendingUnique(lines, ["10.0.0.1", "9.0.0.1"]);
  }
}
