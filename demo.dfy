/** The two string helpers of apps/demo.cpp: quoting a CSV field and finding the output path on
    the command line. */
module Demo {

  /** The double-quote character. */
  const Quote: char := '"'

  /** A field is quoted when it holds a comma or a double quote. */
  predicate NeedsQuotes(s: string) {
    ',' in s || Quote in s
  }

  /** What one character of the field becomes inside the quotes. */
  function Piece(c: char): string {
    if c == Quote then [Quote, Quote] else [c]
  }

  /** The field with every double quote doubled, built one character at a time from the left. */
  function Doubled(s: string): string {
    if |s| == 0 then [] else Doubled(s[..|s| - 1]) + Piece(s[|s| - 1])
  }

  /** `csv_escape` as a value: a field needing no quotes is left alone, any other is wrapped in
      double quotes with its inner double quotes doubled. */
  function Escaped(s: string): string {
    if !NeedsQuotes(s) then s else [Quote] + Doubled(s) + [Quote]
  }

  /** `csv_escape`: the character loop that appends to `t`. */
  method CsvEscape(s: string) returns (t: string)
    ensures t == Escaped(s)
  {
    var needQuotes := ',' in s || Quote in s;
    if !needQuotes {
      return s;
    }
    t := [Quote];
    for k := 0 to |s|
      invariant t == [Quote] + Doubled(s[..k])
    {
      assert s[..k + 1][..k] == s[..k];
      t := t + Piece(s[k]);
    }
    assert s[..|s|] == s;
    t := t + [Quote];
  }

  /** The number of double quotes in s. */
  function QuoteCount(s: string): nat {
    if |s| == 0 then 0 else QuoteCount(s[..|s| - 1]) + (if s[|s| - 1] == Quote then 1 else 0)
  }

  lemma {:induction false} DoubledLength(s: string)
    ensures |Doubled(s)| == |s| + QuoteCount(s)
  {
    if |s| > 0 {
      DoubledLength(s[..|s| - 1]);
    }
  }

  /** A field without commas and double quotes is written as it is; otherwise the quoted field is
      longer by its two enclosing quotes and one extra character per double quote. */
  lemma EscapedLength(s: string)
    ensures !NeedsQuotes(s) ==> Escaped(s) == s
    ensures NeedsQuotes(s) ==> |Escaped(s)| == |s| + 2 + QuoteCount(s)
  {
    DoubledLength(s);
  }

  /** Reading a doubled field back: a closing pair of double quotes stands for one. */
  function Collapse(u: string): string {
    if |u| == 0 then []
    else if |u| >= 2 && u[|u| - 1] == Quote && u[|u| - 2] == Quote then Collapse(u[..|u| - 2]) + [Quote]
    else Collapse(u[..|u| - 1]) + [u[|u| - 1]]
  }

  /** Reading a field back: a quoted field loses its enclosing quotes and its doubled quotes
      collapse; an unquoted field is taken as it is. */
  function Unescaped(t: string): string {
    if |t| >= 2 && t[0] == Quote && t[|t| - 1] == Quote then Collapse(t[1..|t| - 1]) else t
  }

  /** Reading back one more written character: its piece collapses to the character itself. */
  lemma CollapsePiece(d: string, c: char)
    ensures Collapse(d + Piece(c)) == Collapse(d) + [c]
  {
    var u := d + Piece(c);
    if c == Quote {
      assert u[..|u| - 2] == d;
    } else {
      assert u[..|u| - 1] == d;
    }
  }

  lemma {:induction false} CollapseDoubled(s: string)
    ensures Collapse(Doubled(s)) == s
    decreases |s|
  {
    if |s| > 0 {
      var init, c := s[..|s| - 1], s[|s| - 1];
      CollapseDoubled(init);
      CollapsePiece(Doubled(init), c);
      assert init + [c] == s;
    }
  }

  /** Quoting loses nothing: reading every escaped field back gives the field. */
  lemma RoundTrip(s: string)
    ensures Unescaped(Escaped(s)) == s
  {
    if NeedsQuotes(s) {
      var t := Escaped(s);
      assert t[1..|t| - 1] == Doubled(s);
      CollapseDoubled(s);
    } else if |s| >= 2 {
      assert s[0] != Quote;
    }
  }

  /** Section 2 of RFC 4180 also asks for quotes around a field holding a line break; this
      helper ignores line breaks: a CR, LF or CRLF anywhere in a field never decides whether it is
      quoted, so a field whose other characters need no quotes is written as it is. */
  lemma LineBreaksNotQuoted(s: string, t: string, lb: string)
    requires lb == "\n" || lb == "\r" || lb == "\r\n"
    ensures NeedsQuotes(s + lb + t) <==> NeedsQuotes(s + t)
    ensures !NeedsQuotes(s + t) ==> Escaped(s + lb + t) == s + lb + t
  {
    assert ',' !in lb && Quote !in lb;
    assert forall c :: c in s + lb + t <==> c in s || c in lb || c in t;
    assert forall c :: c in s + t <==> c in s || c in t;
  }

  const DefaultOutputPath := "outputs/results.csv"
  const OutputFlag := "--output"

  /** The path chosen after looking at the arguments at positions 1 .. k - 1, each one paired with
      the argument after it. */
  function Scan(args: seq<string>, k: nat): string
    requires 1 <= k && (k == 1 || k < |args|)
  {
    if k == 1 then DefaultOutputPath
    else if args[k - 1] == OutputFlag then args[k]
    else Scan(args, k - 1)
  }

  /** `get_output_path(argc, argv)` as a value: every position i >= 1 with a following argument
      is looked at. */
  function OutputPath(args: seq<string>): string {
    Scan(args, if |args| >= 2 then |args| - 1 else 1)
  }

  /** `get_output_path`: the argv loop that overwrites `out` at every `--output`. */
  method GetOutputPath(args: seq<string>) returns (out: string)
    ensures out == OutputPath(args)
  {
    out := DefaultOutputPath;
    var i := 1;
    while i + 1 < |args|
      invariant 1 <= i && (i == 1 || i < |args|)
      invariant out == Scan(args, i)
    {
      if args[i] == OutputFlag {
        out := args[i + 1];
      }
      i := i + 1;
    }
  }

  /** An `--output` at a position that can take a value. */
  predicate FlagAt(args: seq<string>, i: int) {
    1 <= i && i + 1 < |args| && args[i] == OutputFlag
  }

  lemma {:induction false} ScanNoFlag(args: seq<string>, k: nat)
    requires 1 <= k && (k == 1 || k < |args|)
    requires forall j :: 1 <= j < k ==> args[j] != OutputFlag
    ensures Scan(args, k) == DefaultOutputPath
  {
    if k > 1 {
      ScanNoFlag(args, k - 1);
    }
  }

  lemma {:induction false} ScanLastFlag(args: seq<string>, k: nat, i: nat)
    requires 1 <= i < k < |args| && args[i] == OutputFlag
    requires forall j :: i < j < k ==> args[j] != OutputFlag
    ensures Scan(args, k) == args[i + 1]
  {
    if k - 1 != i {
      ScanLastFlag(args, k - 1, i);
    }
  }

  /** The default path is used when no `--output` has a following argument; otherwise the value
      after the last such `--output` wins. argv[0] and the final argument are never read as flags. */
  lemma OutputPathChoice(args: seq<string>)
    ensures (forall i :: !FlagAt(args, i)) ==> OutputPath(args) == DefaultOutputPath
    ensures forall i :: FlagAt(args, i) && (forall j :: i < j ==> !FlagAt(args, j)) ==> OutputPath(args) == args[i + 1]
  {
    if forall i :: !FlagAt(args, i) {
      NoFlagDefault(args);
    }
    forall i | FlagAt(args, i) && (forall j :: i < j ==> !FlagAt(args, j))
      ensures OutputPath(args) == args[i + 1]
    {
      LastFlagWins(args, i);
    }
  }

  lemma NoFlagDefault(args: seq<string>)
    requires forall i :: !FlagAt(args, i)
    ensures OutputPath(args) == DefaultOutputPath
  {
    var k := if |args| >= 2 then |args| - 1 else 1;
    forall j | 1 <= j < k ensures args[j] != OutputFlag {
      assert !FlagAt(args, j);
    }
    ScanNoFlag(args, k);
  }

  lemma LastFlagWins(args: seq<string>, i: int)
    requires FlagAt(args, i) && forall j :: i < j ==> !FlagAt(args, j)
    ensures OutputPath(args) == args[i + 1]
  {
    var k := |args| - 1;
    forall j | i < j < k ensures args[j] != OutputFlag {
      assert !FlagAt(args, j);
    }
    ScanLastFlag(args, k, i);
  }

  /** Changing argv[0] or the final argument (unless it is the value of an `--output`) does not
      change the path. */
  lemma IgnoredPositions(args: seq<string>, x: string)
    ensures |args| >= 1 ==> OutputPath(args[0 := x]) == OutputPath(args)
    ensures |args| >= 2 && args[|args| - 2] != OutputFlag ==> OutputPath(args[|args| - 1 := x]) == OutputPath(args)
  {
    if |args| >= 1 {
      ScanChanged(args, args[0 := x], if |args| >= 2 then |args| - 1 else 1);
    }
    if |args| >= 2 && args[|args| - 2] != OutputFlag {
      var k := |args| - 1;
      if k > 1 {
        ScanChanged(args, args[k := x], k - 1);
      }
    }
  }

  /** Scan reads positions 1 .. k only. */
  lemma {:induction false} ScanChanged(args: seq<string>, other: seq<string>, k: nat)
    requires 1 <= k && (k == 1 || k < |args|) && |other| == |args|
    requires forall j :: 1 <= j <= k && j < |args| ==> other[j] == args[j]
    ensures Scan(other, k) == Scan(args, k)
  {
    if k > 1 {
      ScanChanged(args, other, k - 1);
    }
  }
}
