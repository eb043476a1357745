/** Separator-joined text: Python's sep.join(fields), a writer that closes every line
    with a newline, and the split that reads such text back. */
module Delimited {

  /** fields[0] + sep + fields[1] + ... + sep + fields[|fields| - 1] */
  function Join(fields: seq<string>, sep: char): string
    requires |fields| >= 1
    decreases |fields|
  {
    if |fields| == 1 then fields[0] else fields[0] + [sep] + Join(fields[1..], sep)
  }

  /** The pieces of s between occurrences of sep; always at least one piece. */
  function Split(s: string, sep: char): (r: seq<string>)
    ensures |r| >= 1
    decreases |s|
  {
    if s == [] then [""]
    else if s[0] == sep then [""] + Split(s[1..], sep)
    else
      var rest := Split(s[1..], sep);
      [[s[0]] + rest[0]] + rest[1..]
  }

  /** No field contains the separator. */
  predicate FreeOf(fields: seq<string>, sep: char)
  {
    forall i :: 0 <= i < |fields| ==> sep !in fields[i]
  }

  lemma FreeOfCons(head: string, fields: seq<string>, sep: char)
    requires sep !in head && FreeOf(fields, sep)
    ensures FreeOf([head] + fields, sep)
  {
    forall i | 0 <= i < |[head] + fields| ensures sep !in ([head] + fields)[i] {
      if i > 0 {
        assert ([head] + fields)[i] == fields[i - 1];
      }
    }
  }

  /** Every line closed by sep, as a file written line by line with '\n' after each. */
  function Terminated(lines: seq<string>, sep: char): string
    decreases |lines|
  {
    if lines == [] then [] else lines[0] + [sep] + Terminated(lines[1..], sep)
  }

  lemma {:induction false} SplitFree(a: string, sep: char)
    requires sep !in a
    ensures Split(a, sep) == [a]
    decreases |a|
  {
    if a != [] {
      SplitFree(a[1..], sep);
      assert [a[0]] + a[1..] == a;
    }
  }

  lemma {:induction false} SplitAfter(a: string, rest: string, sep: char)
    requires sep !in a
    ensures Split(a + [sep] + rest, sep) == [a] + Split(rest, sep)
    decreases |a|
  {
    var s := a + [sep] + rest;
    if a == [] {
      assert s[0] == sep && s[1..] == rest;
    } else {
      assert s[0] == a[0] && s[1..] == a[1..] + [sep] + rest;
      SplitAfter(a[1..], rest, sep);
      assert [a[0]] + a[1..] == a;
    }
  }

  /** Reading joined fields back gives the fields, when none holds the separator. */
  lemma {:induction false} SplitJoin(fields: seq<string>, sep: char)
    requires |fields| >= 1 && FreeOf(fields, sep)
    ensures Split(Join(fields, sep), sep) == fields
    decreases |fields|
  {
    if |fields| == 1 {
      SplitFree(fields[0], sep);
    } else {
      assert sep !in fields[0];
      SplitAfter(fields[0], Join(fields[1..], sep), sep);
      assert FreeOf(fields[1..], sep) by {
        forall i | 0 <= i < |fields[1..]| ensures sep !in fields[1..][i] {
          assert fields[1..][i] == fields[i + 1];
        }
      }
      SplitJoin(fields[1..], sep);
      assert [fields[0]] + fields[1..] == fields;
    }
  }

  /** Joining the pieces again reproduces the text exactly. */
  lemma {:induction false} JoinSplit(s: string, sep: char)
    ensures Join(Split(s, sep), sep) == s
    decreases |s|
  {
    if s != [] {
      JoinSplit(s[1..], sep);
      var rest := Split(s[1..], sep);
      var r := Split(s, sep);
      if s[0] == sep {
        assert r == [""] + rest;
        JoinCons("", rest, sep);
        assert Join(r, sep) == [sep] + s[1..];
      } else {
        assert r == [[s[0]] + rest[0]] + rest[1..];
        JoinGlue(s[0], rest, sep);
        assert Join(r, sep) == [s[0]] + s[1..];
      }
      assert [s[0]] + s[1..] == s;
    }
  }

  lemma JoinCons(field: string, rest: seq<string>, sep: char)
    requires |rest| >= 1
    ensures Join([field] + rest, sep) == field + [sep] + Join(rest, sep)
  {
    assert ([field] + rest)[1..] == rest;
  }

  /** Gluing a character onto the first piece puts it in front of the joined text. */
  lemma JoinGlue(c: char, rest: seq<string>, sep: char)
    requires |rest| >= 1
    ensures Join([[c] + rest[0]] + rest[1..], sep) == [c] + Join(rest, sep)
  {
    if |rest| > 1 {
      JoinCons([c] + rest[0], rest[1..], sep);
      JoinCons(rest[0], rest[1..], sep);
      assert [rest[0]] + rest[1..] == rest;
    }
  }

  lemma {:induction false} TerminatedAppend(lines: seq<string>, line: string, sep: char)
    ensures Terminated(lines + [line], sep) == Terminated(lines, sep) + line + [sep]
    decreases |lines|
  {
    if lines == [] {
      assert [] + [line] == [line];
      assert [line][1..] == [];
    } else {
      assert (lines + [line])[0] == lines[0];
      assert (lines + [line])[1..] == lines[1..] + [line];
      TerminatedAppend(lines[1..], line, sep);
    }
  }

  /** Splitting line-terminated text gives the lines and one empty piece after the last newline. */
  lemma {:induction false} SplitTerminated(lines: seq<string>, sep: char)
    requires FreeOf(lines, sep)
    ensures Split(Terminated(lines, sep), sep) == lines + [""]
    decreases |lines|
  {
    if lines != [] {
      assert sep !in lines[0];
      SplitAfter(lines[0], Terminated(lines[1..], sep), sep);
      assert FreeOf(lines[1..], sep) by {
        forall i | 0 <= i < |lines[1..]| ensures sep !in lines[1..][i] {
          assert lines[1..][i] == lines[i + 1];
        }
      }
      SplitTerminated(lines[1..], sep);
      assert [lines[0]] + (lines[1..] + [""]) == lines + [""];
    }
  }

  /** A character that is not the separator occurs in joined text only if a field holds it. */
  lemma {:induction false} JoinFree(fields: seq<string>, sep: char, c: char)
    requires |fields| >= 1 && c != sep && FreeOf(fields, c)
    ensures c !in Join(fields, sep)
    decreases |fields|
  {
    if |fields| > 1 {
      assert FreeOf(fields[1..], c) by {
        forall i | 0 <= i < |fields[1..]| ensures c !in fields[1..][i] {
          assert fields[1..][i] == fields[i + 1];
        }
      }
      JoinFree(fields[1..], sep, c);
      assert c !in fields[0];
    }
  }
}
