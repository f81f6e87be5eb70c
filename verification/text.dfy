/**
  Strings as the monitor builds them: Python's `sep.join(parts)`, the
  inverse `s.split("\n")`, and text written one line at a time.
  Number rendering (Python's `str(x)` and `format(x, ".2f")`) is taken as
  a parameter, because floating-point printing is not part of this model.
 */
module Text {

  /** How numbers are printed: `number` is `f"{x}"`, `fixed2` is `f"{x:.2f}"`. */
  datatype Format = Format(number: real -> string, fixed2: real -> string)

  predicate NoNewline(s: string) {
    forall i :: 0 <= i < |s| ==> s[i] != '\n'
  }

  predicate AllNoNewline(parts: seq<string>) {
    forall k :: 0 <= k < |parts| ==> NoNewline(parts[k])
  }

  /** A format whose output never breaks a line. */
  ghost predicate SingleLine(fmt: Format) {
    forall x: real :: NoNewline(fmt.number(x)) && NoNewline(fmt.fixed2(x))
  }

  lemma NoNewlineConcat(a: string, b: string)
    requires NoNewline(a) && NoNewline(b)
    ensures NoNewline(a + b)
  {
    forall i | 0 <= i < |a + b| ensures (a + b)[i] != '\n' {
      if i >= |a| { assert (a + b)[i] == b[i - |a|]; }
    }
  }

  /** Python's `sep.join(parts)`: the empty list joins to "". */
  function Join(sep: string, parts: seq<string>): string
  {
    if |parts| == 0 then ""
    else if |parts| == 1 then parts[0]
    else parts[0] + sep + Join(sep, parts[1..])
  }

  /** Python's `s.split("\n")`: always at least one piece, none holding a newline. */
  function SplitLines(s: string): (r: seq<string>)
    ensures |r| >= 1
    ensures AllNoNewline(r)
    decreases |s|
  {
    if |s| == 0 then [""]
    else if s[0] == '\n' then [""] + SplitLines(s[1..])
    else
      var rest := SplitLines(s[1..]);
      [[s[0]] + rest[0]] + rest[1..]
  }

  /** Text written as one `line + "\n"` per line. */
  function Unlines(lines: seq<string>): string
  {
    if |lines| == 0 then "" else lines[0] + "\n" + Unlines(lines[1..])
  }

  /** The text of several writes, in order. */
  function Concat(chunks: seq<string>): string
  {
    if |chunks| == 0 then "" else chunks[0] + Concat(chunks[1..])
  }

  lemma {:induction false} ConcatAppend(a: seq<string>, b: seq<string>)
    ensures Concat(a + b) == Concat(a) + Concat(b)
    decreases |a|
  {
    if |a| == 0 {
      assert a + b == b;
    } else {
      assert (a + b)[1..] == a[1..] + b;
      ConcatAppend(a[1..], b);
    }
  }

  lemma {:induction false} UnlinesAppend(a: seq<string>, b: seq<string>)
    ensures Unlines(a + b) == Unlines(a) + Unlines(b)
    decreases |a|
  {
    if |a| == 0 {
      assert a + b == b;
    } else {
      assert (a + b)[1..] == a[1..] + b;
      UnlinesAppend(a[1..], b);
    }
  }

  /** Writing each line with its newline, one write per line, is `Unlines`. */
  lemma {:induction false} ConcatLineWrites(lines: seq<string>, writes: seq<string>)
    requires |writes| == |lines|
    requires forall i :: 0 <= i < |lines| ==> writes[i] == lines[i] + "\n"
    ensures Concat(writes) == Unlines(lines)
    decreases |lines|
  {
    if |lines| > 0 {
      ConcatLineWrites(lines[1..], writes[1..]);
    }
  }

  /** Four groups of writes that each produce their group of lines produce all the lines. */
  lemma ConcatFourGroups(w1: seq<string>, w2: seq<string>, w3: seq<string>, w4: seq<string>,
                         l1: seq<string>, l2: seq<string>, l3: seq<string>, l4: seq<string>)
    requires Concat(w1) == Unlines(l1) && Concat(w2) == Unlines(l2)
    requires Concat(w3) == Unlines(l3) && Concat(w4) == Unlines(l4)
    ensures Concat(w1 + w2 + w3 + w4) == Unlines(l1 + l2 + l3 + l4)
  {
    ConcatAppend(w1 + w2 + w3, w4);
    ConcatAppend(w1 + w2, w3);
    ConcatAppend(w1, w2);
    UnlinesAppend(l1 + l2 + l3, l4);
    UnlinesAppend(l1 + l2, l3);
    UnlinesAppend(l1, l2);
  }

  /** Prefixing the first part of a join prefixes the whole join. */
  lemma {:induction false} JoinPrefixFirst(sep: string, c: string, x: string, tail: seq<string>)
    ensures Join(sep, [c + x] + tail) == c + Join(sep, [x] + tail)
  {
    if |tail| == 0 {
    } else {
      assert ([c + x] + tail)[1..] == tail;
      assert ([x] + tail)[1..] == tail;
    }
  }

  /** Joining the pieces of a split gives the text back: `"\n".join(s.split("\n")) == s`. */
  lemma {:induction false} JoinSplitLines(s: string)
    ensures Join("\n", SplitLines(s)) == s
    decreases |s|
  {
    if |s| == 0 {
    } else if s[0] == '\n' {
      var rest := SplitLines(s[1..]);
      JoinSplitLines(s[1..]);
      assert ([""] + rest)[1..] == rest;
      assert s == "\n" + s[1..];
    } else {
      var rest := SplitLines(s[1..]);
      JoinSplitLines(s[1..]);
      assert rest == [rest[0]] + rest[1..];
      JoinPrefixFirst("\n", [s[0]], rest[0], rest[1..]);
      assert s == [s[0]] + s[1..];
    }
  }

  /** Splitting `a + t` where `a` has no newline glues `a` onto the first piece of `t`. */
  lemma {:induction false} SplitLinesPrefix(a: string, t: string)
    requires NoNewline(a)
    ensures SplitLines(a + t) == [a + SplitLines(t)[0]] + SplitLines(t)[1..]
    decreases |a|
  {
    if |a| == 0 {
      assert a + t == t;
      assert a + SplitLines(t)[0] == SplitLines(t)[0];
      assert SplitLines(t) == [SplitLines(t)[0]] + SplitLines(t)[1..];
    } else {
      assert (a + t)[0] == a[0];
      assert (a + t)[1..] == a[1..] + t;
      SplitLinesPrefix(a[1..], t);
      assert [a[0]] + (a[1..] + SplitLines(t)[0]) == a + SplitLines(t)[0];
    }
  }

  /** Splitting a join of newline-free parts gives the parts back. */
  lemma {:induction false} SplitJoinLines(parts: seq<string>)
    requires |parts| >= 1
    requires AllNoNewline(parts)
    ensures SplitLines(Join("\n", parts)) == parts
    decreases |parts|
  {
    if |parts| == 1 {
      SplitLinesPrefix(parts[0], "");
      assert parts[0] + "" == parts[0];
    } else {
      var rest := Join("\n", parts[1..]);
      assert Join("\n", parts) == parts[0] + ("\n" + rest);
      SplitLinesPrefix(parts[0], "\n" + rest);
      assert ("\n" + rest)[1..] == rest;
      SplitJoinLines(parts[1..]);
      assert SplitLines("\n" + rest) == [""] + parts[1..];
      assert parts[0] + "" == parts[0];
      assert parts == [parts[0]] + parts[1..];
    }
  }

  /** Writing the joined lines and one final newline is writing each line with its newline. */
  lemma {:induction false} JoinThenNewline(lines: seq<string>)
    requires |lines| >= 1
    ensures Join("\n", lines) + "\n" == Unlines(lines)
    decreases |lines|
  {
    if |lines| == 1 {
      assert lines[1..] == [];
    } else {
      JoinThenNewline(lines[1..]);
    }
  }
}
