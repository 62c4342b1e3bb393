/** The highlight pipe: wraps every occurrence of the query in the value in
    `<mark>` … `</mark>`. The query is escaped before it becomes a regular
    expression, so it is matched as literal text; the expression is global and
    case-insensitive, so the value is scanned from left to right, taking each
    match as soon as it starts and resuming after it. The scan is modelled as
    a list of pieces: single characters passed through, and matched runs. */
module HighlightPipeModule {
  import opened Text

  datatype Piece = Plain(c: char) | Marked(text: string)

  /** The query matches at the start of `value`, ignoring ASCII case. */
  predicate MatchesAtStart(value: string, query: string) {
    |query| <= |value| && ToLower(value[..|query|]) == ToLower(query)
  }

  /** The left-to-right, non-overlapping scan of `value` for `query`. */
  function Scan(value: string, query: string): (r: seq<Piece>)
    requires query != ""
    ensures forall i :: 0 <= i < |r| && r[i].Marked? ==>
      |r[i].text| == |query| && ToLower(r[i].text) == ToLower(query)
    decreases |value|
  {
    if value == [] then []
    else if MatchesAtStart(value, query) then [Marked(value[..|query|])] + Scan(value[|query|..], query)
    else [Plain(value[0])] + Scan(value[1..], query)
  }

  /** The characters of `value` a piece stands for. */
  function Source(p: Piece): string {
    match p
    case Plain(c) => [c]
    case Marked(text) => text
  }

  /** The pieces with their marks removed. */
  function Unwrapped(ps: seq<Piece>): string {
    if ps == [] then [] else Source(ps[0]) + Unwrapped(ps[1..])
  }

  /** The pieces written out, matched runs between the two tags: with no
      matched run it is the text itself, and tags only ever add characters. */
  function Render(ps: seq<Piece>): (r: string)
    ensures (forall i :: 0 <= i < |ps| ==> ps[i].Plain?) ==> r == Unwrapped(ps)
    ensures |r| >= |Unwrapped(ps)|
  {
    if ps == [] then []
    else
      (match ps[0]
       case Plain(c) => [c]
       case Marked(text) => "<mark>" + text + "</mark>")
      + Render(ps[1..])
  }

  /** `transform(value, query)`: an empty query leaves the value as it is. */
  function Transform(value: string, query: string): (r: string)
    ensures query == "" ==> r == value
  {
    if query == "" then value else Render(Scan(value, query))
  }

  /** Removing the marks gives back the value: the scan neither drops nor
      reorders nor alters a character. */
  lemma {:induction false} ScanUnwraps(value: string, query: string)
    requires query != ""
    ensures Unwrapped(Scan(value, query)) == value
    decreases |value|
  {
    if value != [] {
      if MatchesAtStart(value, query) {
        ScanUnwraps(value[|query|..], query);
        assert value == value[..|query|] + value[|query|..];
      } else {
        ScanUnwraps(value[1..], query);
        assert value == [value[0]] + value[1..];
      }
    }
  }

  lemma {:induction false} UnwrappedConcat(a: seq<Piece>, b: seq<Piece>)
    ensures Unwrapped(a + b) == Unwrapped(a) + Unwrapped(b)
  {
    if a == [] {
      assert a + b == b;
    } else {
      assert (a + b)[0] == a[0] && (a + b)[1..] == a[1..] + b;
      UnwrappedConcat(a[1..], b);
    }
  }

  /** How many characters the first piece of the scan takes from `value`. */
  function HeadLength(value: string, query: string): nat
    requires query != ""
  {
    if MatchesAtStart(value, query) then |query| else 1
  }

  /** The offset in `value` of piece `i` of its scan. */
  function Offset(value: string, query: string, i: int): nat
    requires query != "" && 0 <= i <= |Scan(value, query)|
  {
    |Unwrapped(Scan(value, query)[..i])|
  }

  /** Past the first piece, the scan of `value` is the scan of the rest of
      `value`, with offsets moved by the first piece's length. */
  lemma ScanOffsetStep(value: string, query: string, i: int)
    requires query != "" && 0 < i < |Scan(value, query)|
    ensures HeadLength(value, query) <= |value|
    ensures Scan(value, query)[i..] == Scan(value[HeadLength(value, query)..], query)[i - 1..]
    ensures Offset(value, query, i)
         == HeadLength(value, query) + Offset(value[HeadLength(value, query)..], query, i - 1)
  {
    var ps := Scan(value, query);
    var h := HeadLength(value, query);
    ScanUnfold(value, query);
    var tail := Scan(value[h..], query);
    assert ps[i..] == tail[i - 1..];
    assert ps[..i] == [ps[0]] + tail[..i - 1];
    UnwrappedConcat([ps[0]], tail[..i - 1]);
    assert Unwrapped([ps[0]]) == Source(ps[0]) by {
      assert [ps[0]][1..] == [];
    }
  }

  /** One step of the scan: the first piece, standing for the first
      `HeadLength` characters, then the scan of the rest. */
  lemma ScanUnfold(value: string, query: string)
    requires query != "" && value != []
    ensures HeadLength(value, query) <= |value|
    ensures Scan(value, query) == [Scan(value, query)[0]] + Scan(value[HeadLength(value, query)..], query)
    ensures |Source(Scan(value, query)[0])| == HeadLength(value, query)
  {
  }

  /** The scan from piece `i` on is the scan of `value` from that piece's
      offset on: the scan resumes where the previous piece ended. */
  lemma {:induction false} ScanSuffix(value: string, query: string, i: int)
    requires query != "" && 0 <= i < |Scan(value, query)|
    ensures Offset(value, query, i) < |value|
    ensures Scan(value, query)[i..] == Scan(value[Offset(value, query, i)..], query)
    decreases |value|
  {
    if i == 0 {
      ScanSuffixFirst(value, query);
    } else {
      var h := HeadLength(value, query);
      ScanOffsetStep(value, query, i);
      ScanSuffix(value[h..], query, i - 1);
      ScanSuffixNext(value, query, i, h, Offset(value[h..], query, i - 1));
    }
  }

  lemma ScanSuffixFirst(value: string, query: string)
    requires query != "" && 0 < |Scan(value, query)|
    ensures Offset(value, query, 0) == 0 < |value|
    ensures Scan(value, query)[0..] == Scan(value[Offset(value, query, 0)..], query)
  {
    assert Scan(value, query)[..0] == [];
    assert value[0..] == value;
  }

  /** The step of `ScanSuffix`: piece `i` of the scan is piece `i - 1` of
      the scan of the rest after the first piece. */
  lemma ScanSuffixNext(value: string, query: string, i: int, h: nat, off: nat)
    requires query != "" && 0 < i < |Scan(value, query)|
    requires h <= |value| && off < |value[h..]| && i - 1 <= |Scan(value[h..], query)|
    requires Offset(value, query, i) == h + off
    requires Scan(value, query)[i..] == Scan(value[h..], query)[i - 1..]
    requires Scan(value[h..], query)[i - 1..] == Scan(value[h..][off..], query)
    ensures Offset(value, query, i) < |value|
    ensures Scan(value, query)[i..] == Scan(value[Offset(value, query, i)..], query)
  {
    var rest := value[h..][off..];
    assert rest == value[h + off..];
    assert Scan(rest, query) == Scan(value[h + off..], query);
  }

  /** The first piece of a scan: the matched run if the query matches at
      the start, in the value's own casing, and the first character if not. */
  lemma ScanHead(value: string, query: string)
    requires query != "" && value != []
    ensures var p := Scan(value, query)[0];
      && (p.Marked? <==> MatchesAtStart(value, query))
      && (p.Marked? ==> |query| <= |value| && p.text == value[..|query|])
      && (p.Plain? ==> p.c == value[0])
  {
  }

  /** Where each piece sits in `value`: at the offset given by the pieces
      before it. A marked piece is the text of `value` at that offset, in
      its own casing, and the query matches there; a plain piece is the
      character at that offset, and the query does not match there. */
  lemma ScanPositions(value: string, query: string, i: int)
    requires query != "" && 0 <= i < |Scan(value, query)|
    ensures var p, off := Scan(value, query)[i], Offset(value, query, i);
      && off < |value|
      && (p.Marked? <==> MatchesAtStart(value[off..], query))
      && (p.Marked? ==> off + |query| <= |value| && p.text == value[off..off + |query|])
      && (p.Plain? ==> p.c == value[off])
  {
    var off := Offset(value, query, i);
    ScanSuffix(value, query, i);
    ScanHead(value[off..], query);
    assert Scan(value, query)[i] == Scan(value[off..], query)[0];
    if Scan(value, query)[i].Marked? {
      assert value[off..][..|query|] == value[off..off + |query|];
    }
  }

  /** With no match anywhere, every piece is a plain character. */
  lemma {:induction false} NoMatchAllPlain(value: string, query: string)
    requires query != ""
    requires forall i :: 0 <= i <= |value| ==> !MatchesAtStart(value[i..], query)
    ensures Render(Scan(value, query)) == value
    decreases |value|
  {
    if value != [] {
      assert value[0..] == value;
      forall i | 0 <= i <= |value[1..]| ensures !MatchesAtStart(value[1..][i..], query) {
        assert value[1..][i..] == value[i + 1..];
      }
      NoMatchAllPlain(value[1..], query);
    }
  }

  /** A query that does not occur in the value, ignoring case, leaves the
      value as it is. */
  lemma NoOccurrenceIsIdentity(value: string, query: string)
    requires !Contains(ToLower(value), ToLower(query))
    ensures Transform(value, query) == value
  {
    if query != "" {
      forall i | 0 <= i <= |value| ensures !MatchesAtStart(value[i..], query) {
        if |query| <= |value[i..]| {
          ToLowerSlice(value, i, i + |query|);
          assert value[i..][..|query|] == value[i..i + |query|];
          assert !OccursAt(ToLower(value), ToLower(query), i);
        }
      }
      NoMatchAllPlain(value, query);
    }
  }

  /** A query without letters, such as `.`, `*` or `(`, is matched as
      literal text: every marked run is exactly the query, character by
      character. Regular-expression metacharacters stand for themselves. */
  lemma LetterlessQueryMarksItself(value: string, query: string)
    requires query != ""
    requires forall k :: 0 <= k < |query| ==> !('A' <= query[k] <= 'Z') && !('a' <= query[k] <= 'z')
    ensures forall i :: 0 <= i < |Scan(value, query)| && Scan(value, query)[i].Marked? ==>
      Scan(value, query)[i].text == query
  {
    var ps := Scan(value, query);
    forall i | 0 <= i < |ps| && ps[i].Marked? ensures ps[i].text == query {
      var t := ps[i].text;
      forall k | 0 <= k < |query| ensures t[k] == query[k] {
        assert LowerChar(t[k]) == ToLower(t)[k] == ToLower(query)[k] == LowerChar(query[k]);
      }
    }
  }

  /** Example: the scan of `"a.b"` for `"."` marks the dot alone. */
  lemma DotScan()
    ensures Scan("a.b", ".") == [Plain('a'), Marked("."), Plain('b')]
  {
    assert "a.b"[1..] == ".b" && ".b"[..1] == "." && ".b"[1..] == "b" && "b"[1..] == "";
    assert !MatchesAtStart("a.b", ".") && MatchesAtStart(".b", ".") && !MatchesAtStart("b", ".");
    assert Scan("b", ".") == [Plain('b')];
    assert Scan(".b", ".") == [Marked(".")] + Scan("b", ".");
  }

  /** Example: the query `.` marks a dot ... */
  lemma DotMarksDot()
    ensures Transform("a.b", ".") == "a" + "<mark>" + "." + "</mark>" + "b"
  {
    DotScan();
    var ps := [Plain('a'), Marked("."), Plain('b')];
    assert ps[1..] == [Marked("."), Plain('b')] && ps[1..][1..] == [Plain('b')];
    assert Render([Plain('b')]) == "b";
    assert Render(ps[1..]) == "<mark>" + "." + "</mark>" + "b";
    assert Render(ps) == "a" + Render(ps[1..]);
  }

  /** ... and no other character. */
  lemma DotMarksNothingElse()
    ensures Transform("axb", ".") == "axb"
  {
    assert "axb"[1..] == "xb" && "xb"[1..] == "b" && "b"[1..] == "";
    assert !MatchesAtStart("axb", ".") && !MatchesAtStart("xb", ".") && !MatchesAtStart("b", ".");
    assert Scan("b", ".") == [Plain('b')];
    assert Scan("xb", ".") == [Plain('x')] + Scan("b", ".");
    assert Scan("axb", ".") == [Plain('a'), Plain('x'), Plain('b')];
  }

  /** Example: matching ignores case but the marked text keeps the value's
      casing. */
  lemma CaseIsKept()
    ensures Transform("Ann", "aN") == "<mark>" + "An" + "</mark>" + "n"
  {
    assert "Ann"[..2] == "An" && "Ann"[2..] == "n" && "n"[1..] == "";
    assert MatchesAtStart("Ann", "aN") && !MatchesAtStart("n", "aN");
    assert Scan("n", "aN") == [Plain('n')];
    assert Scan("Ann", "aN") == [Marked("An"), Plain('n')];
    assert Render([Plain('n')]) == "n";
  }
}
