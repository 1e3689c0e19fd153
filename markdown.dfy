/** The Markdown produced by the content script (content.js:6-29):
    the text normaliser, the blockquote wrapper used for a selection and
    the fenced code block used for a whole assistant message. */
module Markdown {
  import opened JsString

  /** No three consecutive line feeds anywhere in `s`. */
  predicate NoTripleNewline(s: string) {
    forall i :: 0 <= i && i + 2 < |s| ==> !(s[i] == '\n' && s[i + 1] == '\n' && s[i + 2] == '\n')
  }

  /** Length of the run of line feeds that `s` starts with. */
  function NewlineRun(s: string): (k: nat)
    ensures k <= |s|
    ensures forall i :: 0 <= i < k ==> s[i] == '\n'
    ensures k < |s| ==> s[k] != '\n'
  {
    if s != [] && s[0] == '\n' then 1 + NewlineRun(s[1..]) else 0
  }

  /** `s.replace(/\n{3,}/g, '\n\n')`: scanning left to right, every maximal
      run of three or more line feeds becomes exactly two; shorter runs and
      all other characters are copied. */
  function CollapseNewlines(s: string): (r: string)
    ensures |r| <= |s|
    ensures s != [] ==> r != [] && r[0] == s[0]
    decreases |s|
  {
    if s == [] then []
    else if s[0] != '\n' then [s[0]] + CollapseNewlines(s[1..])
    else
      var k := NewlineRun(s);
      (if k >= 3 then "\n\n" else s[..k]) + CollapseNewlines(s[k..])
  }

  /** `k` line feeds. */
  function Newlines(k: nat): (r: string)
    ensures |r| == k && forall i :: 0 <= i < k ==> r[i] == '\n'
  {
    if k == 0 then [] else ['\n'] + Newlines(k - 1)
  }

  /** `s` with every line feed deleted: the text the collapse must keep. */
  function DropNewlines(s: string): (r: string)
    ensures '\n' !in r && |r| <= |s|
  {
    if s == [] then []
    else (if s[0] == '\n' then [] else [s[0]]) + DropNewlines(s[1..])
  }

  /** normalizeText: trim, then collapse runs of three or more line feeds.
      Apart from line feeds the result is exactly the trimmed text. */
  function NormalizeText(text: string): (r: string)
    ensures NoTripleNewline(r)
    ensures IsTrimmed(r)
    ensures r == [] <==> AllWhitespace(text)
    ensures |r| <= |text|
    ensures DropNewlines(r) == DropNewlines(Trim(text))
  {
    var t := Trim(text);
    CollapseNoTriple(t);
    CollapseKeepsTrimmed(t);
    CollapseKeepsText(t);
    CollapseNewlines(t)
  }

  lemma {:induction false} DropNewlinesConcat(a: string, b: string)
    ensures DropNewlines(a + b) == DropNewlines(a) + DropNewlines(b)
    decreases |a|
  {
    if a != [] {
      assert (a + b)[0] == a[0];
      assert (a + b)[1..] == a[1..] + b;
      DropNewlinesConcat(a[1..], b);
      var h := if a[0] == '\n' then [] else [a[0]];
      assert DropNewlines(a + b) == h + DropNewlines(a[1..] + b);
      assert DropNewlines(a) == h + DropNewlines(a[1..]);
      assert h + (DropNewlines(a[1..]) + DropNewlines(b)) == (h + DropNewlines(a[1..])) + DropNewlines(b);
    } else {
      assert a + b == b;
    }
  }

  lemma {:induction false} DropAllNewlines(s: string)
    requires forall i :: 0 <= i < |s| ==> s[i] == '\n'
    ensures DropNewlines(s) == []
    decreases |s|
  {
    if s != [] {
      DropAllNewlines(s[1..]);
    }
  }

  /** The collapse deletes line feeds only: every other character is kept,
      in order. */
  lemma {:induction false} CollapseKeepsText(s: string)
    ensures DropNewlines(CollapseNewlines(s)) == DropNewlines(s)
    decreases |s|
  {
    if s == [] {
    } else if s[0] != '\n' {
      CollapseKeepsText(s[1..]);
      DropNewlinesConcat([s[0]], CollapseNewlines(s[1..]));
    } else {
      var k := NewlineRun(s);
      var chunk := if k >= 3 then "\n\n" else s[..k];
      CollapseKeepsText(s[k..]);
      DropRunThenRest(chunk, CollapseNewlines(s[k..]));
      assert s == s[..k] + s[k..];
      DropRunThenRest(s[..k], s[k..]);
    }
  }

  lemma {:induction false} DropRunThenRest(run: string, rest: string)
    requires forall i :: 0 <= i < |run| ==> run[i] == '\n'
    ensures DropNewlines(run + rest) == DropNewlines(rest)
  {
    DropNewlinesConcat(run, rest);
    DropAllNewlines(run);
  }

  /** A run of line feeds is measured up to the first other character. */
  lemma {:induction false} NewlineRunOf(k: nat, b: string)
    requires b == [] || b[0] != '\n'
    ensures NewlineRun(Newlines(k) + b) == k
  {
    var s := Newlines(k) + b;
    assert forall i :: 0 <= i < k ==> s[i] == '\n';
    assert k < |s| ==> s[k] == b[0];
  }

  /** Text after a non-line-feed character does not change the run. */
  lemma {:induction false} NewlineRunPrefix(a: string, b: string)
    requires NewlineRun(a) < |a|
    ensures NewlineRun(a + b) == NewlineRun(a)
    decreases |a|
  {
    if a[0] == '\n' {
      assert (a + b)[1..] == a[1..] + b;
      NewlineRunPrefix(a[1..], b);
    }
  }

  /** The collapse works segment by segment: a string that does not end
      inside a run of line feeds is collapsed independently of what
      follows. */
  lemma {:induction false} CollapseAppend(a: string, b: string)
    requires a == [] || a[|a| - 1] != '\n'
    ensures CollapseNewlines(a + b) == CollapseNewlines(a) + CollapseNewlines(b)
    decreases |a|
  {
    if a == [] {
      assert a + b == b;
    } else if a[0] != '\n' {
      assert (a + b)[1..] == a[1..] + b;
      CollapseAppend(a[1..], b);
      ConcatAssoc([a[0]], CollapseNewlines(a[1..]), CollapseNewlines(b));
    } else {
      var k := NewlineRun(a);
      assert k < |a|;
      NewlineRunPrefix(a, b);
      var chunk := if k >= 3 then "\n\n" else a[..k];
      assert (a + b)[..k] == a[..k];
      assert (a + b)[k..] == a[k..] + b;
      CollapseAppend(a[k..], b);
      ConcatAssoc(chunk, CollapseNewlines(a[k..]), CollapseNewlines(b));
    }
  }

  /** A maximal run of `k` line feeds between two other characters (or the
      ends) becomes exactly two line feeds when `k` is three or more and is
      copied when shorter; the text on either side is collapsed on its own. */
  lemma {:induction false} CollapseRun(a: string, k: nat, b: string)
    requires k >= 1
    requires a == [] || a[|a| - 1] != '\n'
    requires b == [] || b[0] != '\n'
    ensures k >= 3 ==> CollapseNewlines(a + Newlines(k) + b) ==
                       CollapseNewlines(a) + "\n\n" + CollapseNewlines(b)
    ensures k < 3 ==> CollapseNewlines(a + Newlines(k) + b) ==
                      CollapseNewlines(a) + Newlines(k) + CollapseNewlines(b)
  {
    var s := Newlines(k) + b;
    var mid := if k >= 3 then "\n\n" else Newlines(k);
    assert a + Newlines(k) + b == a + s;
    CollapseAppend(a, s);
    CollapseLeadingRun(k, b);
    ConcatAssoc(CollapseNewlines(a), mid, CollapseNewlines(b));
  }

  lemma {:induction false} ConcatAssoc(x: string, y: string, z: string)
    ensures x + (y + z) == x + y + z
  {
  }

  lemma {:induction false} CollapseLeadingRun(k: nat, b: string)
    requires k >= 1
    requires b == [] || b[0] != '\n'
    ensures CollapseNewlines(Newlines(k) + b) ==
              (if k >= 3 then "\n\n" else Newlines(k)) + CollapseNewlines(b)
  {
    var s := Newlines(k) + b;
    assert s[0] == '\n';
    NewlineRunOf(k, b);
    assert s[..k] == Newlines(k) && s[k..] == b;
  }

  lemma {:induction false} CollapseKeepsTrimmed(t: string)
    requires IsTrimmed(t)
    ensures IsTrimmed(CollapseNewlines(t))
    ensures CollapseNewlines(t) == [] <==> t == []
  {
    if t != [] {
      CollapseLast(t);
    }
  }

  lemma {:induction false} NoTripleSuffix(s: string, j: nat)
    requires NoTripleNewline(s) && j <= |s|
    ensures NoTripleNewline(s[j..])
  {
    forall i | 0 <= i && i + 2 < |s[j..]|
      ensures !(s[j..][i] == '\n' && s[j..][i + 1] == '\n' && s[j..][i + 2] == '\n')
    {
      assert s[j..][i] == s[j + i] && s[j..][i + 1] == s[j + i + 1] && s[j..][i + 2] == s[j + i + 2];
    }
  }

  /** Two strings free of triple line feeds can be joined without creating
      one, unless a line feed meets a line feed at the seam. */
  lemma {:induction false} NoTripleConcat(a: string, b: string)
    requires NoTripleNewline(a) && NoTripleNewline(b)
    requires a == [] || b == [] || a[|a| - 1] != '\n' || b[0] != '\n'
    ensures NoTripleNewline(a + b)
  {
    var s := a + b;
    forall i | 0 <= i && i + 2 < |s|
      ensures !(s[i] == '\n' && s[i + 1] == '\n' && s[i + 2] == '\n')
    {
      if i + 2 < |a| {
        assert s[i] == a[i] && s[i + 1] == a[i + 1] && s[i + 2] == a[i + 2];
      } else if i >= |a| {
        assert s[i] == b[i - |a|] && s[i + 1] == b[i - |a| + 1] && s[i + 2] == b[i - |a| + 2];
      } else {
        assert s[|a| - 1] == a[|a| - 1] && s[|a|] == b[0];
      }
    }
  }

  /** The collapse leaves no run of three line feeds. */
  lemma {:induction false} CollapseNoTriple(s: string)
    ensures NoTripleNewline(CollapseNewlines(s))
    decreases |s|
  {
    if s == [] {
    } else if s[0] != '\n' {
      CollapseNoTriple(s[1..]);
      NoTripleConcat([s[0]], CollapseNewlines(s[1..]));
    } else {
      var k := NewlineRun(s);
      var chunk := if k >= 3 then "\n\n" else s[..k];
      CollapseNoTriple(s[k..]);
      NoTripleConcat(chunk, CollapseNewlines(s[k..]));
    }
  }

  /** The collapse keeps the last character. */
  lemma {:induction false} CollapseLast(s: string)
    requires s != []
    ensures var r := CollapseNewlines(s); r != [] && r[|r| - 1] == s[|s| - 1]
    decreases |s|, 1
  {
    var r := CollapseNewlines(s);
    if s[0] != '\n' {
      if |s| > 1 {
        var rest := CollapseNewlines(s[1..]);
        assert r == [s[0]] + rest;
        CollapseLast(s[1..]);
        assert s[1..][|s| - 2] == s[|s| - 1];
        LastOfConcat([s[0]], rest);
      }
    } else {
      CollapseLastRun(s);
    }
  }

  /** CollapseLast for a text that starts with a line feed. */
  lemma {:induction false} CollapseLastRun(s: string)
    requires s != [] && s[0] == '\n'
    ensures var r := CollapseNewlines(s); r != [] && r[|r| - 1] == s[|s| - 1]
    decreases |s|, 0
  {
    var k := NewlineRun(s);
    var chunk := if k >= 3 then "\n\n" else s[..k];
    var rest := CollapseNewlines(s[k..]);
    assert CollapseNewlines(s) == chunk + rest;
    if k < |s| {
      CollapseLast(s[k..]);
      assert s[k..][|s| - k - 1] == s[|s| - 1];
      LastOfConcat(chunk, rest);
    } else {
      assert rest == [];
      assert chunk[|chunk| - 1] == '\n';
    }
  }

  lemma LastOfConcat(x: string, y: string)
    requires y != []
    ensures (x + y)[|x + y| - 1] == y[|y| - 1]
  {
  }

  /** A string without three consecutive line feeds is left as it is. */
  lemma {:induction false} CollapseNoTripleUnchanged(s: string)
    requires NoTripleNewline(s)
    ensures CollapseNewlines(s) == s
    decreases |s|
  {
    if s == [] {
    } else if s[0] != '\n' {
      NoTripleSuffix(s, 1);
      CollapseNoTripleUnchanged(s[1..]);
      assert [s[0]] + s[1..] == s;
    } else {
      var k := NewlineRun(s);
      assert |s| >= 3 ==> !(s[0] == '\n' && s[1] == '\n' && s[2] == '\n');
      assert k < 3;
      NoTripleSuffix(s, k);
      CollapseNoTripleUnchanged(s[k..]);
      assert s[..k] + s[k..] == s;
    }
  }

  /** The strings normalizeText leaves alone are exactly the trimmed ones
      without three consecutive line feeds: in particular trailing spaces
      at the end of an inner line are kept. */
  lemma {:induction false} NormalizeFixedPoint(s: string)
    ensures NormalizeText(s) == s <==> IsTrimmed(s) && NoTripleNewline(s)
  {
    if IsTrimmed(s) && NoTripleNewline(s) {
      TrimTrimmed(s);
      CollapseNoTripleUnchanged(s);
    }
  }

  /** Two paragraphs separated by three or more line feeds come out
      normalised on their own and separated by exactly one blank line. */
  lemma {:induction false} NormalizeParagraphs(a: string, k: nat, b: string)
    requires IsTrimmed(a) && a != [] && IsTrimmed(b) && b != []
    requires k >= 3
    ensures NormalizeText(a + Newlines(k) + b) == NormalizeText(a) + "\n\n" + NormalizeText(b)
  {
    var s := a + Newlines(k) + b;
    assert s[0] == a[0] && s[|s| - 1] == b[|b| - 1];
    TrimTrimmed(s);
    TrimTrimmed(a);
    TrimTrimmed(b);
    CollapseRun(a, k, b);
  }

  /** normalizeText is idempotent. */
  lemma {:induction false} NormalizeIdempotent(s: string)
    ensures NormalizeText(NormalizeText(s)) == NormalizeText(s)
  {
    NormalizeFixedPoint(NormalizeText(s));
  }

  // ---------------------------------------------------------------------
  // Blockquote

  const QuotePrefix: string := "> "

  /** Each line prefixed with "> " (the `map` step of toBlockquote):
      every line, empty ones included, starts with the marker, and removing
      it gives the lines back. */
  function QuoteLines(lines: seq<string>): (r: seq<string>)
    ensures |r| == |lines|
    ensures forall i :: 0 <= i < |r| ==> QuotePrefix <= r[i]
    ensures UnquoteLines(r) == lines
  {
    var r := seq(|lines|, i requires 0 <= i < |lines| => QuotePrefix + lines[i]);
    assert forall i :: 0 <= i < |r| ==> UnquoteLine(r[i]) == lines[i];
    r
  }

  /** A line with its "> " prefix removed, when it has one. */
  function UnquoteLine(line: string): string {
    if |line| >= 2 && line[..2] == QuotePrefix then line[2..] else line
  }

  function UnquoteLines(lines: seq<string>): seq<string> {
    seq(|lines|, i requires 0 <= i < |lines| => UnquoteLine(lines[i]))
  }

  /** toBlockquote: normalise, split on line feeds, prefix every line (empty
      ones included) with "> ", rejoin with line feeds. */
  function ToBlockquote(text: string): (r: string)
    ensures Split(r, '\n') == QuoteLines(Split(NormalizeText(text), '\n'))
  {
    SplitQuoted(NormalizeText(text));
    Join(QuoteLines(Split(NormalizeText(text), '\n')), '\n')
  }

  /** Quoting keeps the lines free of line feeds, so the quoted lines are
      exactly what a split of their join gives back. */
  lemma {:induction false} SplitQuoted(n: string)
    ensures var lines := Split(n, '\n');
            Split(Join(QuoteLines(lines), '\n'), '\n') == QuoteLines(lines)
  {
    var lines := Split(n, '\n');
    SplitPiecesFree(n, '\n');
    var quoted := QuoteLines(lines);
    forall i | 0 <= i < |quoted| ensures '\n' !in quoted[i] {
      assert quoted[i] == QuotePrefix + lines[i];
      assert '\n' !in QuotePrefix;
    }
    SplitJoin(quoted, '\n');
  }

  /** Removing the "> " prefix from every line and rejoining gives back
      exactly the normalised text. */
  lemma {:induction false} BlockquoteRoundTrip(text: string)
    ensures Join(UnquoteLines(Split(ToBlockquote(text), '\n')), '\n') == NormalizeText(text)
  {
    JoinSplit(NormalizeText(text), '\n');
  }

  /** The quote is the bare marker "> " exactly when the text is blank. */
  lemma {:induction false} BlockquoteOfBlank(text: string)
    ensures ToBlockquote(text) == QuotePrefix <==> AllWhitespace(text)
  {
    var n := NormalizeText(text);
    var body := Split(n, '\n');
    JoinSplit(ToBlockquote(text), '\n');
    SplitFirstEmpty(n, '\n');
    if AllWhitespace(text) {
      assert n == [];
      assert body == [""];
      SplitNoSeparator(QuotePrefix, '\n');
    } else {
      assert body[0] != "";
      var lines := Split(ToBlockquote(text), '\n');
      assert |lines[0]| > 2;
      if ToBlockquote(text) == QuotePrefix {
        SplitNoSeparator(QuotePrefix, '\n');
        assert false;
      }
    }
  }

  /** No two adjacent pieces of the split are both empty, provided the
      string has no three consecutive line feeds, does not start with two
      and does not end with one. */
  lemma {:induction false} SplitNoAdjacentEmpty(s: string)
    requires NoTripleNewline(s)
    requires !(|s| >= 2 && s[0] == '\n' && s[1] == '\n')
    requires s == [] || s[|s| - 1] != '\n'
    ensures var p := Split(s, '\n');
            forall i :: 0 <= i < |p| - 1 ==> !(p[i] == "" && p[i + 1] == "")
    decreases |s|
  {
    if '\n' !in s {
      SplitNoSeparator(s, '\n');
    } else {
      var j := IndexOf(s, '\n');
      var head, tail := s[..j], s[j + 1..];
      SplitAtFirst(s, '\n');
      assert tail != [] && tail[|tail| - 1] == s[|s| - 1];
      NoTripleSuffix(s, j + 1);
      assert |tail| >= 2 ==> tail[0] == s[j + 1] && tail[1] == s[j + 2];
      assert j > 0 ==> !(s[j] == '\n' && s[j + 1] == '\n' && s[j + 2] == '\n');
      SplitNoAdjacentEmpty(tail);
      SplitFirstEmpty(tail, '\n');
      assert head == "" ==> tail[0] != '\n';
      SplitNoAdjacentEmptyCons(head, Split(tail, '\n'));
    }
  }

  lemma {:induction false} SplitNoAdjacentEmptyCons(head: string, rest: seq<string>)
    requires |rest| >= 1 && !(head == "" && rest[0] == "")
    requires forall i :: 0 <= i < |rest| - 1 ==> !(rest[i] == "" && rest[i + 1] == "")
    ensures var p := [head] + rest;
            forall i :: 0 <= i < |p| - 1 ==> !(p[i] == "" && p[i + 1] == "")
  {
    var p := [head] + rest;
    forall i | 0 <= i < |p| - 1 ensures !(p[i] == "" && p[i + 1] == "") {
      if i > 0 {
        assert p[i] == rest[i - 1] && p[i + 1] == rest[i];
      }
    }
  }

  /** Blank-line discipline of a quote: the first and last lines carry text
      unless the input is blank, and no two adjacent lines are both bare
      "> " markers. */
  lemma {:induction false} BlockquoteBlankLines(text: string)
    ensures var lines := Split(ToBlockquote(text), '\n');
            (!AllWhitespace(text) ==> lines[0] != QuotePrefix && lines[|lines| - 1] != QuotePrefix) &&
            forall i :: 0 <= i < |lines| - 1 ==> !(lines[i] == QuotePrefix && lines[i + 1] == QuotePrefix)
  {
    QuotedTrimmedLines(NormalizeText(text));
  }

  lemma {:induction false} QuotedTrimmedLines(n: string)
    requires IsTrimmed(n) && NoTripleNewline(n)
    ensures var lines := QuoteLines(Split(n, '\n'));
            (n != [] ==> lines[0] != QuotePrefix && lines[|lines| - 1] != QuotePrefix) &&
            forall i :: 0 <= i < |lines| - 1 ==> !(lines[i] == QuotePrefix && lines[i + 1] == QuotePrefix)
  {
    TrimmedLines(n);
    QuotedBare(Split(n, '\n'));
  }

  /** The lines of a trimmed text without three consecutive line feeds: the
      first and last are non-empty unless the text is, and no two adjacent
      lines are both empty. */
  lemma {:induction false} TrimmedLines(n: string)
    requires IsTrimmed(n) && NoTripleNewline(n)
    ensures var body := Split(n, '\n');
            (n != [] ==> body[0] != "" && body[|body| - 1] != "") &&
            forall i :: 0 <= i < |body| - 1 ==> !(body[i] == "" && body[i + 1] == "")
  {
    assert n != [] ==> n[0] != '\n' && n[|n| - 1] != '\n';
    SplitFirstEmpty(n, '\n');
    SplitLastEmpty(n, '\n');
    SplitNoAdjacentEmpty(n);
  }

  /** Quoting turns empty lines, and only those, into bare markers. */
  lemma {:induction false} QuotedBare(body: seq<string>)
    requires |body| >= 1
    ensures var q := QuoteLines(body);
            (q[0] == QuotePrefix <==> body[0] == "") &&
            (q[|q| - 1] == QuotePrefix <==> body[|body| - 1] == "") &&
            ((forall i :: 0 <= i < |body| - 1 ==> !(body[i] == "" && body[i + 1] == "")) ==>
             forall i :: 0 <= i < |q| - 1 ==> !(q[i] == QuotePrefix && q[i + 1] == QuotePrefix))
  {
    var q := QuoteLines(body);
    assert forall i :: 0 <= i < |q| ==> q[i] == QuotePrefix + body[i];
    assert forall i :: 0 <= i < |q| ==> (q[i] == QuotePrefix <==> body[i] == "") by {
      forall i | 0 <= i < |q| ensures q[i] == QuotePrefix <==> body[i] == "" {
        assert q[i] == QuotePrefix + body[i];
      }
    }
  }

  // ---------------------------------------------------------------------
  // Fenced code block

  const FenceOpen: string := "```text"
  const Fence: string := "```"

  /** toCodeBlock: the normalised text, unescaped, between an opening fence
      whose language tag is always `text` and a closing fence. */
  function ToCodeBlock(text: string): (r: string)
    ensures Split(r, '\n') == [FenceOpen] + Split(NormalizeText(text), '\n') + [Fence]
  {
    assert '\n' !in FenceOpen && '\n' !in Fence;
    SplitFramed(FenceOpen, NormalizeText(text), Fence);
    FenceOpen + "\n" + NormalizeText(text) + "\n" + Fence
  }

  /** Lines of `body` framed by two separator-free lines. */
  lemma {:induction false} SplitFramed(first: string, body: string, last: string)
    requires '\n' !in first && '\n' !in last
    ensures Split(first + ['\n'] + body + ['\n'] + last, '\n') == [first] + Split(body, '\n') + [last]
  {
    var rest := body + ['\n'] + last;
    assert first + ['\n'] + body + ['\n'] + last == first + ['\n'] + rest;
    SplitAround(first, '\n', rest);
    SplitAround(body, '\n', last);
    SplitNoSeparator(first, '\n');
    SplitNoSeparator(last, '\n');
  }

  /** Dropping the two fence lines of a code block and joining the rest
      gives back the normalised text. */
  lemma {:induction false} CodeBlockLines(text: string)
    ensures var lines := Split(ToCodeBlock(text), '\n');
            |lines| >= 3 && Join(lines[1..|lines| - 1], '\n') == NormalizeText(text)
  {
    var n := NormalizeText(text);
    var lines := Split(ToCodeBlock(text), '\n');
    assert lines[1..|lines| - 1] == Split(n, '\n');
    JoinSplit(n, '\n');
  }
}
