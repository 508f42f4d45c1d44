/**
  The instruction text splitter: an item's guidance text is cut into
  lines at line feeds, each line is trimmed and empty lines are dropped;
  if any remaining line starts with a bullet marker (`-` or `•`) the text
  is shown as a list of those lines with the marker and the whitespace
  after it removed, otherwise it is shown as one paragraph, unchanged.
 */
module Instruction {

  /**
    The whitespace recognised by string trimming and by the `\s` class
    after a bullet marker: the ECMAScript WhiteSpace and LineTerminator
    characters (tab, line feed, vertical tab, form feed, carriage return,
    the space separators of Unicode category Zs, the byte order mark and
    the line and paragraph separators).
   */
  predicate IsSpace(c: char)
  {
    || c in {'\t', '\n', '\U{000B}', '\U{000C}', '\r', ' ', '\U{00A0}', '\U{1680}'}
    || ('\U{2000}' <= c <= '\U{200A}')
    || c in {'\U{2028}', '\U{2029}', '\U{202F}', '\U{205F}', '\U{3000}', '\U{FEFF}'}
  }

  predicate IsBullet(c: char)
  {
    c == '-' || c == '•'
  }

  /** Neither end of `s` is whitespace. */
  predicate Trimmed(s: string)
  {
    |s| == 0 || (!IsSpace(s[0]) && !IsSpace(s[|s| - 1]))
  }

  /** Every character of `s` is whitespace. */
  predicate AllSpace(s: string)
  {
    forall k :: 0 <= k < |s| ==> IsSpace(s[k])
  }

  predicate NoLineFeed(s: string)
  {
    forall k :: 0 <= k < |s| ==> s[k] != '\n'
  }

  /** Cuts `s` at every line feed; `n` line feeds give `n + 1` pieces, empty ones included. */
  function SplitLines(s: string): (parts: seq<string>)
    ensures |parts| >= 1
    ensures forall i :: 0 <= i < |parts| ==> NoLineFeed(parts[i])
    decreases |s|
  {
    if |s| == 0 then [""]
    else
      var rest := SplitLines(s[1..]);
      if s[0] == '\n' then [""] + rest
      else [[s[0]] + rest[0]] + rest[1..]
  }

  /** Glues pieces back together with a line feed between neighbours. */
  function JoinLines(parts: seq<string>): string
    requires |parts| >= 1
    decreases |parts|
  {
    if |parts| == 1 then parts[0] else parts[0] + "\n" + JoinLines(parts[1..])
  }

  /** Splitting loses nothing: joining the pieces gives the text back. */
  lemma {:induction false} JoinSplit(s: string)
    ensures JoinLines(SplitLines(s)) == s
    decreases |s|
  {
    if |s| > 0 {
      var rest := SplitLines(s[1..]);
      JoinSplit(s[1..]);
      if s[0] == '\n' {
        assert ([""] + rest)[1..] == rest;
      } else {
        var parts := [[s[0]] + rest[0]] + rest[1..];
        if |rest| > 1 {
          assert parts[1..] == rest[1..];
        }
        assert s == [s[0]] + s[1..];
      }
    }
  }

  /** A piece without a line feed extends the first piece of whatever follows it. */
  lemma {:induction false} SplitPrefix(p: string, t: string)
    requires NoLineFeed(p)
    ensures SplitLines(p + t) == [p + SplitLines(t)[0]] + SplitLines(t)[1..]
    decreases |p|
  {
    if |p| == 0 {
      assert p + t == t;
      assert p + SplitLines(t)[0] == SplitLines(t)[0];
      assert SplitLines(t) == [SplitLines(t)[0]] + SplitLines(t)[1..];
    } else {
      assert (p + t)[1..] == p[1..] + t;
      SplitPrefix(p[1..], t);
      assert [p[0]] + (p[1..] + SplitLines(t)[0]) == p + SplitLines(t)[0];
    }
  }

  /** Joining pieces that hold no line feed and splitting again gives the pieces back. */
  lemma {:induction false} SplitJoin(parts: seq<string>)
    requires |parts| >= 1
    requires forall i :: 0 <= i < |parts| ==> NoLineFeed(parts[i])
    ensures SplitLines(JoinLines(parts)) == parts
    decreases |parts|
  {
    SplitPrefix(parts[0], "");
    assert parts[0] + "" == parts[0];
    if |parts| > 1 {
      var t := JoinLines(parts[1..]);
      SplitJoin(parts[1..]);
      assert parts[0] + "\n" + t == parts[0] + ("\n" + t);
      SplitPrefix(parts[0], "\n" + t);
      assert ("\n" + t)[1..] == t;
      assert parts == [parts[0]] + parts[1..];
    }
  }

  /** Drops leading whitespace. */
  function TrimStart(s: string): (r: string)
    ensures |r| <= |s| && r == s[|s| - |r|..]
    ensures |r| > 0 ==> !IsSpace(r[0])
    decreases |s|
  {
    if |s| > 0 && IsSpace(s[0]) then TrimStart(s[1..]) else s
  }

  /** What `TrimStart` drops is whitespace. */
  lemma {:induction false} TrimStartDropsSpace(s: string)
    ensures AllSpace(s[..|s| - |TrimStart(s)|])
    decreases |s|
  {
    if |s| > 0 && IsSpace(s[0]) {
      TrimStartDropsSpace(s[1..]);
      var n := |s| - |TrimStart(s)|;
      forall k | 0 <= k < n ensures IsSpace(s[..n][k]) {
        if k > 0 {
          assert s[..n][k] == s[1..][..n - 1][k - 1];
        }
      }
    }
  }

  /** Drops trailing whitespace. */
  function TrimEnd(s: string): (r: string)
    ensures |r| <= |s| && r == s[..|r|]
    ensures |r| > 0 ==> !IsSpace(r[|r| - 1])
    decreases |s|
  {
    if |s| > 0 && IsSpace(s[|s| - 1]) then TrimEnd(s[..|s| - 1]) else s
  }

  /** What `TrimEnd` drops is whitespace. */
  lemma {:induction false} TrimEndDropsSpace(s: string)
    ensures AllSpace(s[|TrimEnd(s)|..])
    decreases |s|
  {
    if |s| > 0 && IsSpace(s[|s| - 1]) {
      var s' := s[..|s| - 1];
      TrimEndDropsSpace(s');
      var n := |TrimEnd(s)|;
      forall k | 0 <= k < |s| - n ensures IsSpace(s[n..][k]) {
        if n + k < |s| - 1 {
          assert s[n..][k] == s'[n..][k];
        }
      }
    }
  }

  /** `r` is `s[a..]` up to a run of trailing whitespace, and `s[..a]` is all whitespace. */
  ghost predicate BetweenSpaces(s: string, a: int, r: string)
  {
    && 0 <= a <= |s| - |r|
    && r == s[a..a + |r|]
    && AllSpace(s[..a])
    && AllSpace(s[a + |r|..])
  }

  /** Trimming the front and then the back leaves the part of `s` between its whitespace runs. */
  lemma TrimSlice(s: string)
    ensures BetweenSpaces(s, |s| - |TrimStart(s)|, TrimEnd(TrimStart(s)))
  {
    var t := TrimStart(s);
    var r := TrimEnd(t);
    var a := |s| - |t|;
    assert t == s[a..];
    assert r == s[a..a + |r|];
    TrimStartDropsSpace(s);
    TrimEndDropsSpace(t);
    assert s[a + |r|..] == t[|r|..];
    assert AllSpace(s[a + |r|..]);
  }

  /** Trimming the front and then the back leaves no whitespace at either end. */
  lemma TrimEnds(s: string)
    ensures Trimmed(TrimEnd(TrimStart(s)))
  {
    var t := TrimStart(s);
    var r := TrimEnd(t);
    if |r| > 0 {
      assert r[0] == t[0];
    }
  }

  /** Drops whitespace at both ends. */
  function Trim(s: string): (r: string)
    ensures Trimmed(r)
    ensures |r| <= |s|
  {
    TrimEnds(s);
    TrimEnd(TrimStart(s))
  }

  /** What `Trim` keeps is the part of `s` between a leading and a trailing run of whitespace. */
  lemma TrimIsSlice(s: string)
    ensures exists a :: BetweenSpaces(s, a, Trim(s))
  {
    TrimSlice(s);
    assert BetweenSpaces(s, |s| - |TrimStart(s)|, Trim(s));
  }

  /** A trimmed piece as kept lines: none when it is empty, else itself. */
  function KeepLine(t: string): seq<string>
  {
    if t == "" then [] else [t]
  }

  /** The trimmed pieces, empty ones dropped. */
  function NonEmptyTrimmed(parts: seq<string>): (lines: seq<string>)
    ensures |lines| <= |parts|
    ensures forall i :: 0 <= i < |lines| ==> lines[i] != "" && Trimmed(lines[i])
    decreases |parts|
  {
    if |parts| == 0 then []
    else
      var t := Trim(parts[0]);
      if t == "" then NonEmptyTrimmed(parts[1..]) else [t] + NonEmptyTrimmed(parts[1..])
  }

  /** The lines of a text as the splitter sees them. */
  function Lines(text: string): (lines: seq<string>)
    ensures |lines| <= |SplitLines(text)|
    ensures text == "" ==> lines == []
  {
    NonEmptyTrimmed(SplitLines(text))
  }

  predicate StartsWithBullet(line: string)
  {
    |line| > 0 && IsBullet(line[0])
  }

  /** A text is shown as a list when any of its lines starts with a bullet marker. */
  predicate IsList(lines: seq<string>)
  {
    exists i :: 0 <= i < |lines| && StartsWithBullet(lines[i])
  }

  /** Removes a leading bullet marker and the whitespace after it; other lines are kept as they are. */
  function StripBullet(line: string): (r: string)
    ensures !StartsWithBullet(line) ==> r == line
    ensures StartsWithBullet(line) ==>
      && |r| < |line| && r == line[|line| - |r|..]
      && AllSpace(line[1..|line| - |r|])
      && (|r| > 0 ==> !IsSpace(r[0]))
  {
    if StartsWithBullet(line) then
      var t := line[1..];
      TrimStartDropsSpace(t);
      assert line[1..|line| - |TrimStart(t)|] == t[..|t| - |TrimStart(t)|];
      TrimStart(t)
    else line
  }

  /** What the splitter shows for a text. */
  datatype Rendered = Nothing | Paragraph(text: string) | BulletList(entries: seq<string>)

  function Render(text: string): (r: Rendered)
    ensures text == "" <==> r.Nothing?
    ensures r.Paragraph? <==> text != "" && !IsList(Lines(text))
    ensures r.Paragraph? ==> r.text == text
    ensures r.BulletList? ==> |r.entries| == |Lines(text)|
  {
    if text == "" then Nothing
    else
      var lines := Lines(text);
      if IsList(lines) then BulletList(StripAll(lines))
      else Paragraph(text)
  }

  /** The entries of a bullet list: every line with its marker stripped. */
  function StripAll(lines: seq<string>): (entries: seq<string>)
    ensures |entries| == |lines|
    ensures forall i :: 0 <= i < |lines| ==> entries[i] == StripBullet(lines[i])
  {
    seq(|lines|, i requires 0 <= i < |lines| => StripBullet(lines[i]))
  }

  /** Trimming keeps a text free of line feeds when it was. */
  lemma TrimNoLineFeed(s: string)
    requires NoLineFeed(s)
    ensures NoLineFeed(Trim(s))
  {
    var r := Trim(s);
    TrimIsSlice(s);
    var a :| BetweenSpaces(s, a, r);
    forall k | 0 <= k < |r| ensures r[k] != '\n' {
      assert r[k] == s[a + k];
    }
  }

  /** Every line the splitter keeps is non-empty, trimmed and free of line feeds. */
  lemma {:induction false} LinesClean(parts: seq<string>)
    requires forall i :: 0 <= i < |parts| ==> NoLineFeed(parts[i])
    ensures forall i :: 0 <= i < |NonEmptyTrimmed(parts)| ==>
      var l := NonEmptyTrimmed(parts)[i]; l != "" && Trimmed(l) && NoLineFeed(l)
    decreases |parts|
  {
    if |parts| > 0 {
      LinesClean(parts[1..]);
      TrimNoLineFeed(parts[0]);
      var t := Trim(parts[0]);
      if t == "" {
        assert NonEmptyTrimmed(parts) == NonEmptyTrimmed(parts[1..]);
      } else {
        assert NonEmptyTrimmed(parts) == [t] + NonEmptyTrimmed(parts[1..]);
      }
    }
  }

  /**
    List entries are the kept lines with the bullet marker and the
    whitespace after it removed: each is the tail of its line, has no
    whitespace at either end and no line feed.
   */
  lemma ListEntries(text: string)
    ensures Render(text).BulletList? ==>
      var lines := Lines(text);
      var entries := Render(text).entries;
      forall i :: 0 <= i < |entries| ==>
        && entries[i] == StripBullet(lines[i])
        && entries[i] == lines[i][|lines[i]| - |entries[i]|..]
        && Trimmed(entries[i]) && NoLineFeed(entries[i])
  {
    if Render(text).BulletList? {
      var lines := Lines(text);
      var entries := Render(text).entries;
      assert entries == StripAll(lines);
      LinesClean(SplitLines(text));
      forall i | 0 <= i < |entries|
        ensures && entries[i] == StripBullet(lines[i])
                && entries[i] == lines[i][|lines[i]| - |entries[i]|..]
                && Trimmed(entries[i]) && NoLineFeed(entries[i])
      {
        StripLineClean(lines[i]);
      }
    }
  }

  /** Stripping the marker off one clean line leaves a clean tail of it. */
  lemma StripLineClean(l: string)
    requires Trimmed(l) && NoLineFeed(l)
    ensures var e := StripBullet(l);
      e == l[|l| - |e|..] && Trimmed(e) && NoLineFeed(e)
  {
    var e := StripBullet(l);
    if StartsWithBullet(l) && |e| > 0 {
      assert e[|e| - 1] == l[|l| - 1];
    }
    forall k | 0 <= k < |e| ensures e[k] != '\n' {
      assert e[k] == l[|l| - |e| + k];
    }
  }

  /** The bullet line for one entry: a dash, a space and the entry. */
  function BulletLine(x: string): string
  {
    "- " + x
  }

  /** The pieces of a bulleted text, before trimming. */
  function BulletPieces(xs: seq<string>): (parts: seq<string>)
    ensures |parts| == |xs|
  {
    seq(|xs|, i requires 0 <= i < |xs| => BulletLine(xs[i]))
  }

  /** A bulleted text: one bullet line per entry, separated by line feeds. */
  function BulletText(xs: seq<string>): string
    requires |xs| >= 1
  {
    JoinLines(BulletPieces(xs))
  }

  /** A bullet line trims to itself, or to the bare dash when the entry is empty. */
  lemma TrimBulletLine(x: string)
    requires Trimmed(x)
    ensures Trim(BulletLine(x)) == if x == "" then "-" else BulletLine(x)
  {
    var l := BulletLine(x);
    assert TrimStart(l) == l;
    if x == "" {
      assert l[..|l| - 1] == "-";
      assert TrimEnd("-") == "-";
    } else {
      assert l[|l| - 1] == x[|x| - 1];
    }
  }

  /** When no piece trims to nothing, the kept lines are the trimmed pieces one for one. */
  lemma {:induction false} NonEmptyTrimmedAll(parts: seq<string>)
    requires forall i :: 0 <= i < |parts| ==> Trim(parts[i]) != ""
    ensures |NonEmptyTrimmed(parts)| == |parts|
    ensures forall i :: 0 <= i < |parts| ==> NonEmptyTrimmed(parts)[i] == Trim(parts[i])
    decreases |parts|
  {
    if |parts| > 0 {
      NonEmptyTrimmedAll(parts[1..]);
      var rest := NonEmptyTrimmed(parts[1..]);
      assert NonEmptyTrimmed(parts) == [Trim(parts[0])] + rest;
      forall i | 1 <= i < |parts| ensures NonEmptyTrimmed(parts)[i] == Trim(parts[i]) {
        assert parts[1..][i - 1] == parts[i];
      }
    }
  }

  /**
    Dropping blank pieces, read from the end: one more piece adds its
    trimmed form to the kept lines when that is not empty, and nothing
    otherwise.
   */
  lemma {:induction false} NonEmptyTrimmedSnoc(parts: seq<string>, p: string)
    ensures NonEmptyTrimmed(parts + [p]) == NonEmptyTrimmed(parts) + KeepLine(Trim(p))
    decreases |parts|
  {
    if |parts| == 0 {
      var q := parts + [p];
      assert q == [p] && q[1..] == [];
      assert NonEmptyTrimmed(q) == KeepLine(Trim(p)) + NonEmptyTrimmed([]);
    } else {
      NonEmptyTrimmedSnoc(parts[1..], p);
      SnocStep(parts, p);
    }
  }

  /** The inductive step of `NonEmptyTrimmedSnoc`, for a non-empty prefix. */
  lemma SnocStep(parts: seq<string>, p: string)
    requires |parts| > 0
    requires NonEmptyTrimmed(parts[1..] + [p]) == NonEmptyTrimmed(parts[1..]) + KeepLine(Trim(p))
    ensures NonEmptyTrimmed(parts + [p]) == NonEmptyTrimmed(parts) + KeepLine(Trim(p))
  {
    var q := parts + [p];
    SnocParts(parts, p);
    NonEmptyTrimmedCons(q);
    NonEmptyTrimmedCons(parts);
    Rebracket(NonEmptyTrimmed(q), NonEmptyTrimmed(parts),
      KeepLine(Trim(parts[0])), NonEmptyTrimmed(parts[1..]), KeepLine(Trim(p)));
  }

  lemma SnocParts<T>(xs: seq<T>, x: T)
    requires |xs| > 0
    ensures (xs + [x])[0] == xs[0] && (xs + [x])[1..] == xs[1..] + [x]
  {
  }

  lemma NonEmptyTrimmedCons(parts: seq<string>)
    requires |parts| > 0
    ensures NonEmptyTrimmed(parts) == KeepLine(Trim(parts[0])) + NonEmptyTrimmed(parts[1..])
  {
    if Trim(parts[0]) == "" {
      EmptyConcat(NonEmptyTrimmed(parts[1..]));
    }
  }

  lemma EmptyConcat<T>(x: seq<T>)
    ensures [] + x == x
  {
  }

  /** If `x` is `h` then `r` then `l`, and `y` is `h` then `r`, then `x` is `y` then `l`. */
  lemma Rebracket<T>(x: seq<T>, y: seq<T>, h: seq<T>, r: seq<T>, l: seq<T>)
    requires x == h + (r + l) && y == h + r
    ensures x == y + l
  {
  }

  /** Splitting a bulleted text gives back its bullet lines, which is more than nothing. */
  lemma SplitBulletText(xs: seq<string>)
    requires |xs| >= 1
    requires forall i :: 0 <= i < |xs| ==> NoLineFeed(xs[i])
    ensures SplitLines(BulletText(xs)) == BulletPieces(xs)
    ensures BulletText(xs) != ""
  {
    var parts := BulletPieces(xs);
    forall i | 0 <= i < |parts| ensures NoLineFeed(parts[i]) {
      forall k | 0 <= k < |parts[i]| ensures parts[i][k] != '\n' {
        if k >= 2 {
          assert parts[i][k] == xs[i][k - 2];
        }
      }
    }
    SplitJoin(parts);
  }

  /** A trimmed bullet line starts with the marker and strips back to its entry. */
  lemma StripBulletLine(x: string)
    requires Trimmed(x)
    ensures StartsWithBullet(Trim(BulletLine(x)))
    ensures StripBullet(Trim(BulletLine(x))) == x
  {
    TrimBulletLine(x);
    var l := Trim(BulletLine(x));
    if x == "" {
      assert l[1..] == "";
    } else {
      assert l[1..] == " " + x;
      assert (" " + x)[1..] == x;
      assert TrimStart(" " + x) == TrimStart(x);
    }
  }

  /**
    Rendering a bulleted text gives back its entries: for entries without
    line feeds and without whitespace at either end, the text made of one
    "- entry" line per entry renders as the list of exactly those entries.
   */
  lemma RenderBulletText(xs: seq<string>)
    requires |xs| >= 1
    requires forall i :: 0 <= i < |xs| ==> NoLineFeed(xs[i]) && Trimmed(xs[i])
    ensures Render(BulletText(xs)) == BulletList(xs)
  {
    var text := BulletText(xs);
    SplitBulletText(xs);
    BulletLines(xs);
    var lines := Lines(text);
    forall i | 0 <= i < |lines| ensures StripBullet(lines[i]) == xs[i] && StartsWithBullet(lines[i]) {
      StripBulletLine(xs[i]);
    }
    assert StartsWithBullet(lines[0]);
    StripAllPointwise(lines, xs);
  }

  /** The kept lines of a bulleted text are its bullet lines, trimmed, one per entry. */
  lemma BulletLines(xs: seq<string>)
    requires |xs| >= 1
    requires forall i :: 0 <= i < |xs| ==> NoLineFeed(xs[i]) && Trimmed(xs[i])
    ensures |Lines(BulletText(xs))| == |xs|
    ensures forall i :: 0 <= i < |xs| ==> Lines(BulletText(xs))[i] == Trim(BulletLine(xs[i]))
  {
    SplitBulletText(xs);
    assert Lines(BulletText(xs)) == NonEmptyTrimmed(BulletPieces(xs));
    BulletPiecesTrimmed(xs);
  }

  /** The trimmed bullet pieces, none of them dropped. */
  lemma BulletPiecesTrimmed(xs: seq<string>)
    requires forall i :: 0 <= i < |xs| ==> Trimmed(xs[i])
    ensures |NonEmptyTrimmed(BulletPieces(xs))| == |xs|
    ensures forall i :: 0 <= i < |xs| ==> NonEmptyTrimmed(BulletPieces(xs))[i] == Trim(BulletLine(xs[i]))
  {
    BulletPiecesNotBlank(xs);
    NonEmptyTrimmedAll(BulletPieces(xs));
  }

  /** No bullet line trims to nothing: the dash stays. */
  lemma BulletPiecesNotBlank(xs: seq<string>)
    requires forall i :: 0 <= i < |xs| ==> Trimmed(xs[i])
    ensures forall i :: 0 <= i < |xs| ==> Trim(BulletPieces(xs)[i]) != ""
  {
    forall i | 0 <= i < |xs| ensures Trim(BulletPieces(xs)[i]) != "" {
      TrimBulletLine(xs[i]);
    }
  }

  lemma StripAllPointwise(lines: seq<string>, xs: seq<string>)
    requires |lines| == |xs|
    requires forall i :: 0 <= i < |lines| ==> StripBullet(lines[i]) == xs[i]
    ensures StripAll(lines) == xs
  {
  }
}
