/** The svn:externals text written by UpdateExternalsMojo.writeExternals(List, File). */
module Serializer {
  import opened Externals

  /** One record: location, a space, path, and a terminating newline. */
  function Line(e: Entry): (r: string)
    ensures |r| == |e.location| + |e.path| + 2
    ensures r[..|e.location|] == e.location && r[|e.location|] == ' '
    ensures r[|e.location| + 1..|r| - 1] == e.path && r[|r| - 1] == '\n'
  {
    e.location + " " + e.path + "\n"
  }

  /** The records of all entries, in list order. */
  function Render(s: seq<Entry>): (text: string)
    ensures text == [] <==> s == []
    ensures s != [] ==> text[|text| - 1] == '\n'
  {
    if s == [] then "" else Line(s[0]) + Render(s[1..])
  }

  /** Rendering distributes over concatenation of entry lists. */
  lemma {:induction false} RenderAppend(s: seq<Entry>, t: seq<Entry>)
    ensures Render(s + t) == Render(s) + Render(t)
    decreases |s|
  {
    if s == [] {
      assert s + t == t;
    } else {
      assert (s + t)[0] == s[0];
      assert (s + t)[1..] == s[1..] + t;
      RenderAppend(s[1..], t);
    }
  }

  /** Rendering one more entry of a list appends that entry's record. */
  lemma RenderPrefixStep(s: seq<Entry>, i: nat)
    requires i < |s|
    ensures Render(s[..i + 1]) == Render(s[..i]) + Line(s[i])
  {
    assert s[..i + 1] == s[..i] + [s[i]];
    RenderAppend(s[..i], [s[i]]);
  }

  /** The number of occurrences of `c` in `text`. */
  function Occurrences(text: string, c: char): nat {
    if text == [] then 0 else (if text[0] == c then 1 else 0) + Occurrences(text[1..], c)
  }

  lemma {:induction false} OccurrencesAppend(x: string, y: string, c: char)
    ensures Occurrences(x + y, c) == Occurrences(x, c) + Occurrences(y, c)
    decreases |x|
  {
    if x == [] {
      assert x + y == y;
    } else {
      assert (x + y)[1..] == x[1..] + y;
      OccurrencesAppend(x[1..], y, c);
    }
  }

  lemma {:induction false} OccurrencesAbsent(x: string, c: char)
    requires c !in x
    ensures Occurrences(x, c) == 0
    decreases |x|
  {
    if x != [] {
      OccurrencesAbsent(x[1..], c);
    }
  }

  /** Neither field of any entry holds a newline. */
  predicate NewlineFree(s: seq<Entry>) {
    forall k | 0 <= k < |s| :: '\n' !in s[k].location && '\n' !in s[k].path
  }

  /** Every entry yields exactly one newline, so the text has as many lines as the list has entries. */
  lemma {:induction false} RenderLineCount(s: seq<Entry>)
    requires NewlineFree(s)
    ensures Occurrences(Render(s), '\n') == |s|
    decreases |s|
  {
    if s != [] {
      var e := s[0];
      OccurrencesAbsent(e.location, '\n');
      OccurrencesAbsent(e.path, '\n');
      OccurrencesAppend(e.location, " ", '\n');
      OccurrencesAppend(e.location + " ", e.path, '\n');
      OccurrencesAppend(e.location + " " + e.path, "\n", '\n');
      OccurrencesAppend(Line(e), Render(s[1..]), '\n');
      assert NewlineFree(s[1..]) by {
        forall k | 0 <= k < |s[1..]| ensures '\n' !in s[1..][k].location && '\n' !in s[1..][k].path {
          assert s[1..][k] == s[k + 1];
        }
      }
      RenderLineCount(s[1..]);
    }
  }

  /** The empty list renders to the empty text; two entries render to two records in order. */
  lemma RenderExamples()
    ensures Render([]) == ""
    ensures Render([Entry("u1", "p1"), Entry("u2", "p2")]) == "u1 p1\nu2 p2\n"
  {
  }
}
