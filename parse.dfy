/** parseline: splitting a command line into its arguments and the
    background flag.  Split defines the arguments; ParseLine walks the
    buffer with a cursor as the shell does and is proved to produce them. */
module Parse {
  import opened Wrappers

  /** The working copy of the line: its last character (the newline that
      fgets keeps) becomes a space. */
  function Buffer(cmdline: string): (a: string)
    requires |cmdline| >= 1
    ensures |a| == |cmdline| && a[|a| - 1] == ' '
    ensures forall k :: 0 <= k < |a| - 1 ==> a[k] == cmdline[k]
  {
    cmdline[..|cmdline| - 1] + [' ']
  }

  /** `strchr`: the first position at or after p that holds c. */
  function Find(a: string, p: nat, c: char): (r: Option<nat>)
    requires p <= |a|
    ensures r.Some? ==> p <= r.value < |a| && a[r.value] == c
    decreases |a| - p
  {
    if p == |a| then None
    else if a[p] == c then Some(p)
    else Find(a, p + 1, c)
  }

  /** Find returns the first occurrence, and none only when there is none. */
  lemma {:induction false} FindFirst(a: string, p: nat, c: char)
    requires p <= |a|
    ensures Find(a, p, c).Some? ==> forall k :: p <= k < Find(a, p, c).value ==> a[k] != c
    ensures Find(a, p, c).None? <==> forall k :: p <= k < |a| ==> a[k] != c
    decreases |a| - p
  {
    if p < |a| && a[p] != c {
      FindFirst(a, p + 1, c);
    }
  }

  /** The position of c when nothing before it, from p on, is c. */
  lemma FindIs(a: string, p: nat, c: char, i: nat)
    requires p <= i < |a| && a[i] == c
    requires forall k :: p <= k < i ==> a[k] != c
    ensures Find(a, p, c) == Some(i)
  {
    FindFirst(a, p, c);
  }

  /** The first position at or after p that is not a space. */
  function SkipSpaces(a: string, p: nat): (q: nat)
    requires p <= |a|
    ensures p <= q <= |a|
    decreases |a| - p
  {
    if p < |a| && a[p] == ' ' then SkipSpaces(a, p + 1) else p
  }

  /** SkipSpaces passes over spaces only, and stops at the first non-space. */
  lemma {:induction false} SkipSpacesStops(a: string, p: nat)
    requires p <= |a|
    ensures forall k :: p <= k < SkipSpaces(a, p) ==> a[k] == ' '
    ensures SkipSpaces(a, p) < |a| ==> a[SkipSpaces(a, p)] != ' '
    decreases |a| - p
  {
    if p < |a| && a[p] == ' ' {
      SkipSpacesStops(a, p + 1);
    }
  }

  /** Where an argument starts and the delimiter that ends it (none: the
      scan stops). */
  datatype Cursor = Cursor(start: nat, delim: Option<nat>)

  predicate CursorOk(a: string, c: Cursor)
  {
    c.start <= |a| && (c.delim.Some? ==> c.start <= c.delim.value < |a|)
  }

  /** The argument at q: after an opening quote it runs to the next quote,
      otherwise to the next space. */
  function TokenAt(a: string, q: nat): (c: Cursor)
    requires q <= |a|
    ensures CursorOk(a, c) && c.start >= q
  {
    if q < |a| && a[q] == '\'' then Cursor(q + 1, Find(a, q + 1, '\''))
    else Cursor(q, Find(a, q, ' '))
  }

  /** The argument at c ends at the first ch from its start, or runs off the
      end of the buffer when no ch follows. */
  predicate DelimitedBy(a: string, c: Cursor, ch: char)
    requires CursorOk(a, c)
  {
    match c.delim
    case Some(d) => a[d] == ch && forall k :: c.start <= k < d ==> a[k] != ch
    case None => forall k :: c.start <= k < |a| ==> a[k] != ch
  }

  /** A quoted argument starts after the quote and ends at the next quote;
      any other starts where it stands and ends at the next space. */
  lemma TokenAtDelimits(a: string, q: nat)
    requires q <= |a|
    ensures q < |a| && a[q] == '\'' ==> TokenAt(a, q).start == q + 1 && DelimitedBy(a, TokenAt(a, q), '\'')
    ensures !(q < |a| && a[q] == '\'') ==> TokenAt(a, q).start == q && DelimitedBy(a, TokenAt(a, q), ' ')
  {
    if q < |a| && a[q] == '\'' {
      FindFirst(a, q + 1, '\'');
    } else {
      FindFirst(a, q, ' ');
    }
  }

  /** The arguments in a from position p on. */
  function Split(a: string, p: nat): (r: seq<string>)
    requires p <= |a|
    ensures |r| <= |a| - p
    decreases |a| - p
  {
    Pending(a, TokenAt(a, SkipSpaces(a, p)))
  }

  /** The arguments still to come once the scan stands at c. */
  function Pending(a: string, c: Cursor): (r: seq<string>)
    requires CursorOk(a, c)
    ensures |r| <= |a| - c.start
    decreases |a| - c.start, 0
  {
    match c.delim
    case None => []
    case Some(d) => [a[c.start..d]] + Split(a, d + 1)
  }

  /** A trailing argument that starts with '&' asks for a background job. */
  predicate Background(arg: string)
  {
    |arg| > 0 && arg[0] == '&'
  }

  /** What parseline returns: the argument vector (its end is the NULL
      terminator) and the background flag. */
  datatype Parsed = Parsed(argv: seq<string>, bg: bool)

  /** A C string: at least the one character parseline overwrites, no NUL. */
  predicate LineOk(cmdline: string)
  {
    |cmdline| >= 1 && '\0' !in cmdline
  }

  /** parseline: the arguments, less a trailing background word, and the
      flag; a blank line counts as background, so the caller ignores it. */
  function Parse(cmdline: string): (r: Parsed)
    requires LineOk(cmdline)
    ensures r.argv <= Split(Buffer(cmdline), 0) && |Split(Buffer(cmdline), 0)| <= |r.argv| + 1
    ensures |r.argv| < |Split(Buffer(cmdline), 0)| ==> r.bg && Background(Split(Buffer(cmdline), 0)[|r.argv|])
    ensures r.argv == [] ==> r.bg
    ensures var args := Split(Buffer(cmdline), 0);
      |args| > 0 ==>
        r == (if Background(args[|args| - 1]) then Parsed(args[..|args| - 1], true) else Parsed(args, false))
  {
    var args := Split(Buffer(cmdline), 0);
    if |args| == 0 then Parsed([], true)
    else if Background(args[|args| - 1]) then Parsed(args[..|args| - 1], true)
    else Parsed(args, false)
  }

  /** One step of the scan: skip the spaces from p on, then find the
      argument there and its delimiter. */
  method NextArgument(a: string, p: nat) returns (c: Cursor)
    requires p <= |a|
    ensures c == TokenAt(a, SkipSpaces(a, p))
  {
    var buf := p;
    while buf < |a| && a[buf] == ' '
      invariant p <= buf <= |a| && SkipSpaces(a, buf) == SkipSpaces(a, p)
    {
      buf := buf + 1;
    }
    if buf < |a| && a[buf] == '\'' {
      c := Cursor(buf + 1, Find(a, buf + 1, '\''));
    } else {
      c := Cursor(buf, Find(a, buf, ' '));
    }
  }

  /** Split at p is what is pending at the cursor found from p. */
  lemma SplitIsPending(a: string, p: nat)
    requires p <= |a|
    ensures Split(a, p) == Pending(a, TokenAt(a, SkipSpaces(a, p)))
  {
  }

  /** A cursor with a delimiter yields its argument, then the rest. */
  lemma PendingStep(a: string, c: Cursor)
    requires CursorOk(a, c) && c.delim.Some?
    ensures Pending(a, c) == [a[c.start..c.delim.value]] + Split(a, c.delim.value + 1)
  {
  }

  /** Moving one element from what is pending to what is collected. */
  lemma AppendStep<T>(xs: seq<T>, x: T, rest: seq<T>, pending: seq<T>, whole: seq<T>)
    requires xs + pending == whole && pending == [x] + rest
    ensures (xs + [x]) + rest == whole
  {
    assert (xs + [x]) + rest == xs + ([x] + rest);
  }

  /** One turn of the argument loop: the argument at c joins what was
      collected, and what is pending moves on to the next cursor. */
  lemma CollectStep(a: string, argv: seq<string>, c: Cursor, next: Cursor, whole: seq<string>)
    requires CursorOk(a, c) && c.delim.Some? && argv + Pending(a, c) == whole
    requires next == TokenAt(a, SkipSpaces(a, c.delim.value + 1))
    ensures CursorOk(a, next) && next.start > c.start
    ensures (argv + [a[c.start..c.delim.value]]) + Pending(a, next) == whole
  {
    PendingStep(a, c);
    SplitIsPending(a, c.delim.value + 1);
    AppendStep(argv, a[c.start..c.delim.value], Pending(a, next), Pending(a, c), whole);
  }

  /** parseline's argument loop over the buffer a: one argument per
      delimiter found, as Split defines. */
  method ScanArguments(a: string) returns (argv: seq<string>)
    ensures argv == Split(a, 0)
  {
    ghost var whole := Split(a, 0);
    var c := NextArgument(a, 0);
    SplitIsPending(a, 0);
    argv := [];
    assert argv + Pending(a, c) == whole;
    while c.delim.Some?
      invariant CursorOk(a, c)
      invariant argv + Pending(a, c) == whole
      decreases |a| - c.start
    {
      var d := c.delim.value;
      var arg := a[c.start..d];
      var next := NextArgument(a, d + 1);
      CollectStep(a, argv, c, next, whole);
      argv := argv + [arg];
      c := next;
    }
    assert argv + [] == argv;
  }

  /** parseline: copy the line with its newline made a space, scan the
      arguments, and take a trailing '&' argument as the background flag. */
  method ParseLine(cmdline: string) returns (argv: seq<string>, bg: bool)
    requires LineOk(cmdline)
    ensures Parsed(argv, bg) == Parse(cmdline)
  {
    var a := Buffer(cmdline);
    argv := ScanArguments(a);
    if |argv| == 0 {
      return argv, true;
    }
    bg := Background(argv[|argv| - 1]);
    if bg {
      argv := argv[..|argv| - 1];
    }
  }

  // ---------------------------------------------------------------------
  // Facts

  /** A word that needs no quoting: not empty, no space, no opening quote. */
  predicate PlainWord(w: string)
  {
    |w| > 0 && ' ' !in w && w[0] != '\'' && '\0' !in w
  }

  /** Every word is plain, stated word by word. */
  predicate AllPlain(ws: seq<string>)
  {
    |ws| == 0 || (PlainWord(ws[0]) && AllPlain(ws[1..]))
  }

  lemma {:induction false} AllPlainOf(ws: seq<string>)
    requires forall i :: 0 <= i < |ws| ==> PlainWord(ws[i])
    ensures AllPlain(ws)
  {
    if |ws| > 0 {
      AllPlainOf(ws[1..]);
    }
  }

  /** Words each followed by one space. */
  function Unwords(ws: seq<string>): string
  {
    if |ws| == 0 then "" else ws[0] + " " + Unwords(ws[1..])
  }

  lemma {:induction false} UnwordsNoNul(ws: seq<string>)
    requires forall i :: 0 <= i < |ws| ==> PlainWord(ws[i])
    ensures '\0' !in Unwords(ws)
  {
    if |ws| > 0 {
      UnwordsNoNul(ws[1..]);
    }
  }

  /** A plain word followed by a space is one argument. */
  lemma SplitPlainWord(a: string, p: nat, w: string)
    requires PlainWord(w)
    requires p + |w| < |a| && a[p..p + |w|] == w && a[p + |w|] == ' '
    ensures Split(a, p) == [w] + Split(a, p + |w| + 1)
  {
    assert a[p] == w[0];
    assert SkipSpaces(a, p) == p;
    forall k | p <= k < p + |w|
      ensures a[k] != ' '
    {
      assert a[k] == w[k - p];
    }
    FindIs(a, p, ' ', p + |w|);
  }

  /** x = [ws[0]] + y and y = ws[1..] + tail give x = ws + tail. */
  lemma ConsChain<T>(x: seq<T>, y: seq<T>, ws: seq<T>, tail: seq<T>)
    requires |ws| > 0 && x == [ws[0]] + y && y == ws[1..] + tail
    ensures x == ws + tail
  {
    assert [ws[0]] + (ws[1..] + tail) == ws + tail;
  }

  /** A slice of a that equals x + y splits into x, then y. */
  lemma SliceSplit(a: string, p: nat, x: string, y: string)
    requires p + |x| + |y| <= |a| && a[p..p + |x| + |y|] == x + y
    ensures a[p..p + |x|] == x && a[p + |x|..p + |x| + |y|] == y
  {
    forall k | 0 <= k < |x|
      ensures a[p + k] == x[k]
    {
      assert a[p + k] == a[p..p + |x| + |y|][k] == (x + y)[k];
    }
    forall k | 0 <= k < |y|
      ensures a[p + |x| + k] == y[k]
    {
      assert a[p + |x| + k] == a[p..p + |x| + |y|][|x| + k] == (x + y)[|x| + k];
    }
  }

  /** The pieces of a slice of a that equals w + " " + rest. */
  lemma SliceOfWord(a: string, p: nat, w: string, rest: string)
    requires p + |w| + 1 + |rest| <= |a| && a[p..p + |w| + 1 + |rest|] == w + " " + rest
    ensures a[p..p + |w|] == w && a[p + |w|] == ' '
    ensures a[p + |w| + 1..p + |w| + 1 + |rest|] == rest
  {
    SliceSplit(a, p, w + " ", rest);
    SliceSplit(a, p, w, " ");
    assert a[p + |w|] == a[p + |w|..p + |w| + 1][0];
  }

  /** The layout of Unwords(ws) for non-empty ws, in a: the first word, a
      space, then the rest of the words. */
  lemma UnwordsLayout(a: string, p: nat, ws: seq<string>)
    requires |ws| > 0
    requires p + |Unwords(ws)| <= |a| && a[p..p + |Unwords(ws)|] == Unwords(ws)
    ensures a[p..p + |ws[0]|] == ws[0] && a[p + |ws[0]|] == ' '
    ensures p + |ws[0]| + 1 + |Unwords(ws[1..])| == p + |Unwords(ws)|
    ensures a[p + |ws[0]| + 1..p + |Unwords(ws)|] == Unwords(ws[1..])
  {
    var w, rest := ws[0], Unwords(ws[1..]);
    assert Unwords(ws) == w + " " + rest;
    SliceOfWord(a, p, w, rest);
  }

  /** The words ws lie in a from p on, each followed by one space, ending
      at end. */
  predicate LaidOut(a: string, p: nat, ws: seq<string>, end: nat)
    decreases |ws|
  {
    if |ws| == 0 then p == end
    else
      && p + |ws[0]| < |a| && a[p..p + |ws[0]|] == ws[0] && a[p + |ws[0]|] == ' '
      && LaidOut(a, p + |ws[0]| + 1, ws[1..], end)
  }

  lemma {:induction false} UnwordsLaidOut(a: string, p: nat, ws: seq<string>)
    requires p + |Unwords(ws)| <= |a| && a[p..p + |Unwords(ws)|] == Unwords(ws)
    ensures LaidOut(a, p, ws, p + |Unwords(ws)|)
    decreases |ws|
  {
    if |ws| > 0 {
      UnwordsLayout(a, p, ws);
      UnwordsLaidOut(a, p + |ws[0]| + 1, ws[1..]);
    }
  }

  /** One word on from p: the first plain word is split off, then the rest. */
  lemma SplitPlainWordsStep(a: string, p: nat, ws: seq<string>, end: nat)
    requires |ws| > 0 && PlainWord(ws[0])
    requires p + |ws[0]| < |a| && a[p..p + |ws[0]|] == ws[0] && a[p + |ws[0]|] == ' '
    requires end <= |a|
    requires Split(a, p + |ws[0]| + 1) == ws[1..] + Split(a, end)
    ensures Split(a, p) == ws + Split(a, end)
  {
    SplitPlainWord(a, p, ws[0]);
    ConsChain(Split(a, p), Split(a, p + |ws[0]| + 1), ws, Split(a, end));
  }

  /** Plain words laid out one space apart come out one argument each,
      whatever follows them. */
  lemma {:induction false} SplitPlainWords(a: string, p: nat, ws: seq<string>, end: nat)
    requires AllPlain(ws) && end <= |a| && LaidOut(a, p, ws, end)
    ensures Split(a, p) == ws + Split(a, end)
    decreases |ws|
  {
    if |ws| > 0 {
      SplitPlainWords(a, p + |ws[0]| + 1, ws[1..], end);
      SplitPlainWordsStep(a, p, ws, end);
    } else {
      assert ws + Split(a, p) == Split(a, p);
    }
  }

  /** The pieces of a slice of a that equals a quoted word. */
  lemma SliceOfQuoted(a: string, p: nat, w: string)
    requires p + |w| + 2 <= |a| && a[p..p + |w| + 2] == "'" + w + "'"
    ensures a[p] == '\'' && a[p + 1 + |w|] == '\''
    ensures a[p + 1..p + 1 + |w|] == w
  {
    SliceSplit(a, p, "'" + w, "'");
    SliceSplit(a, p, "'", w);
    assert a[p] == a[p..p + 1][0];
    assert a[p + 1 + |w|] == a[p + 1 + |w|..p + |w| + 2][0];
  }

  /** A quoted argument runs from the opening to the closing quote, spaces
      included, and the scan resumes right after the closing quote. */
  lemma SplitQuoted(a: string, p: nat, w: string)
    requires '\'' !in w
    requires p + |w| + 2 <= |a| && a[p..p + |w| + 2] == "'" + w + "'"
    ensures Split(a, p) == [w] + Split(a, p + |w| + 2)
  {
    SliceOfQuoted(a, p, w);
    assert SkipSpaces(a, p) == p;
    forall k | p + 1 <= k < p + 1 + |w|
      ensures a[k] != '\''
    {
      assert a[k] == a[p + 1..p + 1 + |w|][k - p - 1];
    }
    FindIs(a, p + 1, '\'', p + 1 + |w|);
  }

  /** An opening quote with no closing one ends the scan: that argument
      and everything after it are dropped. */
  lemma SplitUnterminatedQuote(a: string, p: nat)
    requires p < |a| && a[p] == '\''
    requires forall k :: p < k < |a| ==> a[k] != '\''
    ensures Split(a, p) == []
  {
    assert SkipSpaces(a, p) == p;
    FindFirst(a, p + 1, '\'');
  }

  /** The scan of a buffer that is all spaces from p on yields nothing. */
  lemma SplitBlank(a: string, p: nat)
    requires p <= |a| && forall k :: p <= k < |a| ==> a[k] == ' '
    ensures Split(a, p) == []
  {
    SkipSpacesStops(a, p);
  }

  /** A line of spaces is blank: no arguments, and parseline returns 1. */
  lemma ParseBlankLine(cmdline: string)
    requires LineOk(cmdline)
    requires forall k :: 0 <= k < |cmdline| - 1 ==> cmdline[k] == ' '
    ensures Parse(cmdline) == Parsed([], true)
  {
    SplitBlank(Buffer(cmdline), 0);
  }

  /** The line a user types for the words ws: single spaces, then a newline. */
  function Line(ws: seq<string>): string
    requires |ws| > 0
  {
    Unwords(ws[..|ws| - 1]) + ws[|ws| - 1] + "\n"
  }

  lemma {:induction false} UnwordsSnoc(ws: seq<string>, w: string)
    ensures Unwords(ws + [w]) == Unwords(ws) + w + " "
  {
    if |ws| > 0 {
      assert (ws + [w])[1..] == ws[1..] + [w];
      UnwordsSnoc(ws[1..], w);
    }
  }

  lemma BufferOfLine(ws: seq<string>)
    requires |ws| > 0
    ensures |Line(ws)| >= 1 && Buffer(Line(ws)) == Unwords(ws)
  {
    assert ws == ws[..|ws| - 1] + [ws[|ws| - 1]];
    UnwordsSnoc(ws[..|ws| - 1], ws[|ws| - 1]);
  }

  /** Round trip: the words of a typed foreground command come back as its
      argument vector, with the background flag off. */
  lemma ParseLineOfWords(ws: seq<string>)
    requires |ws| > 0 && forall i :: 0 <= i < |ws| ==> PlainWord(ws[i])
    requires !Background(ws[|ws| - 1])
    ensures LineOk(Line(ws)) && Parse(Line(ws)) == Parsed(ws, false)
  {
    var a := Unwords(ws);
    BufferOfLine(ws);
    UnwordsNoNul(ws);
    assert forall k :: 0 <= k < |Line(ws)| - 1 ==> Line(ws)[k] == a[k];
    assert '\0' !in Line(ws);
    assert a[0..|a|] == a;
    AllPlainOf(ws);
    UnwordsLaidOut(a, 0, ws);
    SplitPlainWords(a, 0, ws, |a|);
    SplitBlank(a, |a|);
    assert ws + [] == ws;
  }

  /** A trailing `&` word sets the background flag and is removed. */
  lemma ParseBackgroundLine(ws: seq<string>)
    requires forall i :: 0 <= i < |ws| ==> PlainWord(ws[i])
    ensures LineOk(Line(ws + ["&"])) && Parse(Line(ws + ["&"])) == Parsed(ws, true)
  {
    var vs := ws + ["&"];
    var a := Unwords(vs);
    BufferOfLine(vs);
    UnwordsNoNul(vs);
    assert forall k :: 0 <= k < |Line(vs)| - 1 ==> Line(vs)[k] == a[k];
    assert '\0' !in Line(vs);
    assert a[0..|a|] == a;
    AllPlainOf(vs);
    UnwordsLaidOut(a, 0, vs);
    SplitPlainWords(a, 0, vs, |a|);
    SplitBlank(a, |a|);
    assert vs + [] == vs;
    assert vs[..|vs| - 1] == ws;
  }
}
