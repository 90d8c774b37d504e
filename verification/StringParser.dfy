/** Splitting a string at a delimiter.  The search positions are size_t, but the start of a piece is kept in 32 bits. */
module StringParserModel {
  import opened OrderedKeys

  const TWO_32 := 0x1_0000_0000

  predicate MatchAt(s: string, delim: string, p: nat) {
    p + |delim| <= |s| && s[p..p + |delim|] == delim
  }

  /** std::string::find: the first match at or after pos. */
  function Find(s: string, delim: string, pos: nat): (r: Option<nat>)
    ensures r.Some? ==> pos <= r.value && r.value + |delim| <= |s|
    decreases |s| - pos
  {
    if pos > |s| then None
    else if MatchAt(s, delim, pos) then Some(pos)
    else Find(s, delim, pos + 1)
  }

  lemma {:induction false} FindIsFirst(s: string, delim: string, pos: nat)
    ensures var r := Find(s, delim, pos);
      && (r.None? ==> forall p :: pos <= p ==> !MatchAt(s, delim, p))
      && (r.Some? ==> MatchAt(s, delim, r.value) && forall p :: pos <= p < r.value ==> !MatchAt(s, delim, p))
    decreases |s| - pos
  {
    if pos <= |s| && !MatchAt(s, delim, pos) { FindIsFirst(s, delim, pos + 1); }
  }

  lemma MatchInRest(s: string, delim: string, pos: nat, p: nat)
    requires pos <= |s|
    ensures MatchAt(s[pos..], delim, p) <==> MatchAt(s, delim, pos + p)
  {
    if pos + p + |delim| <= |s| { assert s[pos..][p..p + |delim|] == s[pos + p..pos + p + |delim|]; }
  }

  lemma MatchInFront(s: string, t: string, delim: string, p: nat)
    requires p + |delim| <= |s|
    ensures MatchAt(s, delim, p) <==> MatchAt(s + t, delim, p)
  {
    assert s[p..p + |delim|] == (s + t)[p..p + |delim|];
  }

  /** Looking from pos on is looking in what is left from pos on. */
  lemma FindFrom(s: string, delim: string, pos: nat)
    requires pos <= |s|
    ensures Find(s, delim, pos) == (match Find(s[pos..], delim, 0) case None => None case Some(e) => Some(pos + e))
  {
    hide MatchAt, Find;
    var rest := s[pos..];
    FindIsFirst(s, delim, pos);
    FindIsFirst(rest, delim, 0);
    var a, b := Find(s, delim, pos), Find(rest, delim, 0);
    if a.Some? { MatchInRest(s, delim, pos, a.value - pos); }
    if b.Some? { MatchInRest(s, delim, pos, b.value); }
  }

  // ---- what a split is ----

  function Join(pieces: seq<string>, delim: string): string
    requires pieces != []
  {
    if |pieces| == 1 then pieces[0] else pieces[0] + delim + Join(pieces[1..], delim)
  }

  /** The pieces of s between successive matches, with positions of any size. */
  function Split(s: string, delim: string): (pieces: seq<string>)
    requires delim != ""
    ensures pieces != []
    decreases |s|
  {
    match Find(s, delim, 0)
    case None => [s]
    case Some(e) => [s[..e]] + Split(s[e + |delim|..], delim)
  }

  lemma {:induction false} JoinOfSplit(s: string, delim: string)
    requires delim != ""
    ensures Join(Split(s, delim), delim) == s
    decreases |s|
  {
    var f := Find(s, delim, 0);
    if f.Some? {
      var e := f.value;
      var rest := s[e + |delim|..];
      JoinOfSplit(rest, delim);
      FindIsFirst(s, delim, 0);
      assert Split(s, delim)[1..] == Split(rest, delim);
      assert s[e..e + |delim|] == delim;
      assert s == s[..e] + s[e..e + |delim|] + rest;
    }
  }

  /** No match anywhere. */
  ghost predicate Free(s: string, delim: string) {
    forall p: nat :: !MatchAt(s, delim, p)
  }

  lemma BeforeFirstIsFree(s: string, delim: string, e: nat)
    requires delim != "" && Find(s, delim, 0) == Some(e)
    ensures Free(s[..e], delim)
  {
    FindIsFirst(s, delim, 0);
    forall p: nat ensures !MatchAt(s[..e], delim, p) {
      if p + |delim| <= e {
        assert s[..e][p..p + |delim|] == s[p..p + |delim|];
        assert !MatchAt(s, delim, p);
      }
    }
  }

  lemma {:induction false} PiecesAreFree(s: string, delim: string, i: nat)
    requires delim != "" && i < |Split(s, delim)|
    ensures Free(Split(s, delim)[i], delim)
    decreases |s|
  {
    hide MatchAt, Find;
    var f := Find(s, delim, 0);
    if f.None? {
      FindIsFirst(s, delim, 0);
    } else if i == 0 {
      BeforeFirstIsFree(s, delim, f.value);
    } else {
      PiecesAreFree(s[f.value + |delim|..], delim, i - 1);
    }
  }

  /** Followed by the delimiter, the piece shows it at its end and no earlier. */
  predicate EndsClean(piece: string, delim: string) {
    Find(piece + delim, delim, 0) == Some(|piece|)
  }

  predicate Clean(pieces: seq<string>, delim: string)
    requires pieces != []
  {
    if |pieces| == 1 then Find(pieces[0], delim, 0).None?
    else EndsClean(pieces[0], delim) && Clean(pieces[1..], delim)
  }

  /** The first match in piece + delim + rest is seen in piece + delim already. */
  lemma FirstMatch(piece: string, delim: string, rest: string)
    requires delim != ""
    ensures Find(piece + delim + rest, delim, 0) == Find(piece + delim, delim, 0)
    ensures Find(piece + delim, delim, 0).Some? && Find(piece + delim, delim, 0).value <= |piece|
  {
    var short, long := piece + delim, piece + delim + rest;
    assert short[|piece|..|piece| + |delim|] == delim;
    assert MatchAt(short, delim, |piece|);
    hide MatchAt, Find;
    FindIsFirst(short, delim, 0);
    FindIsFirst(long, delim, 0);
    var a, b := Find(short, delim, 0), Find(long, delim, 0);
    MatchInFront(short, rest, delim, a.value);
    assert MatchAt(long, delim, a.value);
    MatchInFront(short, rest, delim, b.value);
  }

  /** Splitting a joined string finds the first piece exactly if that piece ends clean. */
  lemma FirstPieceFound(piece: string, delim: string, rest: string)
    requires delim != ""
    ensures var s := piece + delim + rest;
      if EndsClean(piece, delim) then Split(s, delim) == [piece] + Split(rest, delim) else Split(s, delim)[0] != piece
  {
    var s := piece + delim + rest;
    FirstMatch(piece, delim, rest);
    var e := Find(s, delim, 0).value;
    assert Split(s, delim) == [s[..e]] + Split(s[e + |delim|..], delim);
    if e == |piece| {
      assert s[..e] == piece && s[e + |delim|..] == rest;
    }
  }

  /** Splitting undoes joining exactly for clean pieces. */
  lemma {:induction false} SplitOfJoin(pieces: seq<string>, delim: string)
    requires delim != "" && pieces != []
    ensures Split(Join(pieces, delim), delim) == pieces <==> Clean(pieces, delim)
    decreases |pieces|
  {
    if |pieces| == 1 {
      assert pieces == [pieces[0]];
    } else {
      var rest := Join(pieces[1..], delim);
      SplitOfJoin(pieces[1..], delim);
      FirstPieceFound(pieces[0], delim, rest);
      assert pieces == [pieces[0]] + pieces[1..];
      hide Split, Find, EndsClean;
      var parts := Split(rest, delim);
      assert ([pieces[0]] + parts)[1..] == parts;
    }
  }

  /** For a delimiter of one character clean means that no piece contains it. */
  lemma {:induction false} CleanForOneCharacter(pieces: seq<string>, c: char)
    requires pieces != []
    ensures Clean(pieces, [c]) <==> forall i :: 0 <= i < |pieces| ==> c !in pieces[i]
    decreases |pieces|
  {
    OneCharacter(pieces[0], c);
    if |pieces| > 1 {
      CleanForOneCharacter(pieces[1..], c);
      assert forall i :: 0 < i < |pieces| ==> pieces[i] == pieces[1..][i - 1];
      assert (forall i :: 0 <= i < |pieces[1..]| ==> c !in pieces[1..][i])
        <==> forall i :: 0 < i < |pieces| ==> c !in pieces[i];
    }
  }

  lemma OneCharacter(piece: string, c: char)
    ensures Find(piece, [c], 0).None? <==> c !in piece
    ensures EndsClean(piece, [c]) <==> c !in piece
  {
    var long := piece + [c];
    OneCharacterMatches(piece, c);
    OneCharacterMatches(long, c);
    FirstMatch(piece, [c], "");
    FindIsFirst(piece, [c], 0);
    FindIsFirst(long, [c], 0);
    hide Find, MatchAt;
    if c in piece {
      var p: nat :| p < |piece| && piece[p] == c;
      assert MatchAt(piece, [c], p) && long[p] == c && MatchAt(long, [c], p);
    } else {
      assert forall p: nat :: p < |piece| ==> long[p] == piece[p];
    }
  }

  lemma OneCharacterMatches(s: string, c: char)
    ensures forall p: nat :: MatchAt(s, [c], p) <==> p < |s| && s[p] == c
  {
  }

  // ---- what stringParser does ----

  /** Where the next piece starts: one delimiter further on, modulo the width of the variable. */
  function NextStart(end: nat, delim: string): nat {
    (end + |delim|) % TWO_32
  }

  /** The pieces from start on, if the loop ends within fuel rounds. */
  function Parse(input: string, delim: string, start: nat, fuel: nat): Option<seq<string>>
    requires start <= |input|
    decreases fuel
  {
    match Find(input, delim, start)
    case None => Some([input[start..]])
    case Some(end) =>
      if fuel == 0 then None
      else match Parse(input, delim, NextStart(end, delim), fuel - 1)
        case None => None
        case Some(rest) => Some([input[start..end]] + rest)
  }

  predicate Halts(input: string, delim: string, fuel: nat) {
    Parse(input, delim, 0, fuel).Some?
  }

  method StringParser(input: string, delim: string) returns (resultVector: seq<string>)
    requires exists fuel: nat :: Halts(input, delim, fuel)
    ensures exists fuel: nat :: Halts(input, delim, fuel) && resultVector == Parse(input, delim, 0, fuel).value
  {
    hide Find, MatchAt;
    ghost var fuel: nat :| Halts(input, delim, fuel);
    ghost var left := fuel;
    resultVector := [];
    var start := 0;
    var end := Find(input, delim, 0);
    while end.Some?
      invariant 0 <= start <= |input| && end == Find(input, delim, start)
      invariant Parse(input, delim, start, left).Some?
      invariant resultVector + Parse(input, delim, start, left).value == Parse(input, delim, 0, fuel).value
      decreases left
    {
      ghost var rest := Parse(input, delim, NextStart(end.value, delim), left - 1).value;
      assert resultVector + ([input[start..end.value]] + rest) == (resultVector + [input[start..end.value]]) + rest;
      resultVector := resultVector + [input[start..end.value]];
      start := (end.value + |delim|) % TWO_32;
      end := Find(input, delim, start);
      left := left - 1;
    }
    resultVector := resultVector + [input[start..]];
  }

  /** Every match that splitting from start on comes to ends within 32 bits. */
  predicate Fits(input: string, delim: string, start: nat)
    requires delim != "" && start <= |input|
    decreases |input| - start
  {
    match Find(input, delim, start)
    case None => true
    case Some(end) => end + |delim| < TWO_32 && Fits(input, delim, end + |delim|)
  }

  lemma SplitOnce(s: string, delim: string, before: string, after: string)
    requires delim != "" && Find(s, delim, 0).Some?
    requires var e := Find(s, delim, 0).value; before == s[..e] && after == s[e + |delim|..]
    ensures Split(s, delim) == [before] + Split(after, delim)
  {
  }

  lemma NoSplit(s: string, delim: string)
    requires delim != "" && Find(s, delim, 0).None?
    ensures Split(s, delim) == [s]
  {
  }

  lemma PartsOfRest(s: string, start: nat, k: nat, l: nat)
    requires start + k + l <= |s|
    ensures s[start..][..k] == s[start..start + k] && s[start..][k + l..] == s[start + k + l..]
  {
  }

  /** One step of the split, in positions of the whole input. */
  lemma SplitFrom(input: string, delim: string, start: nat)
    requires delim != "" && start <= |input|
    ensures Find(input, delim, start).None? ==> Split(input[start..], delim) == [input[start..]]
    ensures Find(input, delim, start).Some? ==>
      var e := Find(input, delim, start).value;
      Split(input[start..], delim) == [input[start..e]] + Split(input[e + |delim|..], delim)
  {
    hide *;
    var rest := input[start..];
    FindFrom(input, delim, start);
    var f, g := Find(input, delim, start), Find(rest, delim, 0);
    if g.Some? {
      PartsOfRest(input, start, g.value, |delim|);
      SplitOnce(rest, delim, input[start..f.value], input[f.value + |delim|..]);
    } else {
      NoSplit(rest, delim);
    }
  }

  /** As long as the matches fit, the program computes the split. */
  lemma {:induction false} ParseIsSplit(input: string, delim: string, start: nat, fuel: nat)
    requires delim != "" && start <= |input| && Fits(input, delim, start)
    requires fuel >= |input| - start
    ensures Parse(input, delim, start, fuel) == Some(Split(input[start..], delim))
    decreases |input| - start
  {
    hide Find, Split;
    SplitFrom(input, delim, start);
    var f := Find(input, delim, start);
    if f.Some? {
      var next := f.value + |delim|;
      assert NextStart(f.value, delim) == next;
      ParseIsSplit(input, delim, next, fuel - 1);
    }
  }

  /** More rounds than enough make no difference. */
  lemma {:induction false} FuelIsEnough(input: string, delim: string, start: nat, fuel: nat, more: nat)
    requires start <= |input| && fuel <= more && Parse(input, delim, start, fuel).Some?
    ensures Parse(input, delim, start, more) == Parse(input, delim, start, fuel)
    decreases fuel
  {
    var f := Find(input, delim, start);
    if f.Some? { FuelIsEnough(input, delim, NextStart(f.value, delim), fuel - 1, more - 1); }
  }

  /** How often the start wraps around. */
  function Wraps(input: string, delim: string, start: nat, fuel: nat): nat
    requires start <= |input|
    decreases fuel
  {
    match Find(input, delim, start)
    case None => 0
    case Some(end) =>
      if fuel == 0 then 0
      else (end + |delim|) / TWO_32 + Wraps(input, delim, NextStart(end, delim), fuel - 1)
  }

  /** Each wrap makes the joined result longer than the input by 2^32 characters. */
  lemma {:induction false} WrapsLengthen(input: string, delim: string, start: nat, fuel: nat)
    requires start <= |input| && Parse(input, delim, start, fuel).Some?
    ensures Parse(input, delim, start, fuel).value != []
    ensures |Join(Parse(input, delim, start, fuel).value, delim)|
         == |input| - start + TWO_32 * Wraps(input, delim, start, fuel)
    decreases fuel
  {
    var f := Find(input, delim, start);
    if f.Some? {
      var next := NextStart(f.value, delim);
      WrapsLengthen(input, delim, next, fuel - 1);
      var rest := Parse(input, delim, next, fuel - 1).value;
      var all := Parse(input, delim, start, fuel).value;
      assert all[1..] == rest;
      assert |Join(all, delim)| == f.value - start + |delim| + |Join(rest, delim)|;
    }
  }

  lemma {:induction false} WrapsUnlessFits(input: string, delim: string, start: nat, fuel: nat)
    requires delim != "" && start <= |input| && Parse(input, delim, start, fuel).Some?
    ensures Wraps(input, delim, start, fuel) == 0 <==> Fits(input, delim, start)
    decreases fuel
  {
    hide Find;
    var f := Find(input, delim, start);
    if f.Some? && f.value + |delim| < TWO_32 {
      assert NextStart(f.value, delim) == f.value + |delim|;
      WrapsUnlessFits(input, delim, f.value + |delim|, fuel - 1);
    }
  }

  /** With an empty delimiter every search succeeds on the spot and the loop never ends. */
  lemma {:induction false} EmptyDelimiterNeverEnds(input: string, start: nat, fuel: nat)
    requires start <= |input|
    ensures Parse(input, "", start, fuel).None?
    decreases fuel
  {
    assert input[start..start] == "";
    assert MatchAt(input, "", start);
    FindIsFirst(input, "", start);
    var end := Find(input, "", start).value;
    if fuel > 0 { EmptyDelimiterNeverEnds(input, NextStart(end, ""), fuel - 1); }
  }

  /** The program ends with pieces that give the input back. */
  predicate GivesBack(input: string, delim: string, fuel: nat) {
    var r := Parse(input, delim, 0, fuel);
    r.Some? && r.value != [] && Join(r.value, delim) == input
  }

  /** It does so exactly for a non-empty delimiter all of whose matches end below 2^32. */
  lemma ExactIff(input: string, delim: string)
    ensures (exists fuel: nat :: GivesBack(input, delim, fuel)) <==> delim != "" && Fits(input, delim, 0)
  {
    if fuel: nat :| GivesBack(input, delim, fuel) {
      if delim == "" {
        EmptyDelimiterNeverEnds(input, 0, fuel);
      } else {
        WrapsLengthen(input, delim, 0, fuel);
        WrapsUnlessFits(input, delim, 0, fuel);
      }
    }
    if delim != "" && Fits(input, delim, 0) {
      ParseIsSplit(input, delim, 0, |input|);
      assert input[0..] == input;
      JoinOfSplit(input, delim);
      assert GivesBack(input, delim, |input|);
    }
  }

  /** No start lies at 2^32 or later, so whatever the delimiter, a match there is ahead for ever. */
  lemma {:induction false} LateMatchNeverEnds(input: string, delim: string, start: nat, p: nat, fuel: nat)
    requires start <= p && start <= |input| && MatchAt(input, delim, p) && p >= TWO_32
    ensures Parse(input, delim, start, fuel).None?
    decreases fuel
  {
    FindIsFirst(input, delim, start);
    hide Find, MatchAt;
    var end := Find(input, delim, start).value;
    if fuel > 0 { LateMatchNeverEnds(input, delim, NextStart(end, delim), p, fuel - 1); }
  }

  /** For a delimiter of one character a match that ends at 2^32 or later is never passed: the start wraps before it. */
  lemma {:induction false} FarMatchNeverEnds(input: string, c: char, start: nat, p: nat, fuel: nat)
    requires start <= p < |input| && input[p] == c && p + 1 >= TWO_32
    ensures Parse(input, [c], start, fuel).None?
    decreases fuel
  {
    OneCharacterMatches(input, c);
    FindIsFirst(input, [c], start);
    hide Find, MatchAt;
    assert MatchAt(input, [c], p);
    var end := Find(input, [c], start).value;
    if fuel > 0 { FarMatchNeverEnds(input, c, NextStart(end, [c]), p, fuel - 1); }
  }

  lemma {:induction false} FarMatchExists(input: string, c: char, start: nat) returns (p: nat)
    requires start <= |input| && !Fits(input, [c], start)
    ensures start <= p < |input| && input[p] == c && p + 1 >= TWO_32
    decreases |input| - start
  {
    OneCharacterMatches(input, c);
    FindIsFirst(input, [c], start);
    hide Find, MatchAt;
    p := Find(input, [c], start).value;
    if p + 1 < TWO_32 { p := FarMatchExists(input, c, p + 1); }
  }

  /** For a delimiter of one character the loop ends exactly if all matches end below 2^32. */
  lemma HaltsIff(input: string, c: char)
    ensures (exists fuel: nat :: Halts(input, [c], fuel)) <==> Fits(input, [c], 0)
  {
    if Fits(input, [c], 0) {
      ParseIsSplit(input, [c], 0, |input|);
      assert Halts(input, [c], |input|);
    } else {
      var p := FarMatchExists(input, c, 0);
      forall fuel: nat ensures !Halts(input, [c], fuel) { FarMatchNeverEnds(input, c, 0, p, fuel); }
    }
  }

  /** 2^32 - 1 letters and a comma: the start after the comma wraps to 0, and the loop begins again for ever. */
  lemma {:induction false} LongInputNeverEnds(input: string, fuel: nat)
    requires |input| == TWO_32 && input[TWO_32 - 1] == ',' && forall i :: 0 <= i < TWO_32 - 1 ==> input[i] == 'a'
    ensures Parse(input, ",", 0, fuel).None?
    decreases fuel
  {
    OneCharacterMatches(input, ',');
    FindIsFirst(input, ",", 0);
    hide Find, MatchAt;
    assert MatchAt(input, ",", TWO_32 - 1);
    assert Find(input, ",", 0) == Some(TWO_32 - 1);
    if fuel > 0 { LongInputNeverEnds(input, fuel - 1); }
  }

  /** The matches fit exactly if all of the input before the last piece does; so they do in every input below 2^32. */
  lemma {:induction false} FitsIff(input: string, delim: string, start: nat)
    requires delim != "" && start <= |input|
    requires start < TWO_32
    ensures var pieces := Split(input[start..], delim);
      Fits(input, delim, start) <==> |input| - |pieces[|pieces| - 1]| < TWO_32
    decreases |input| - start
  {
    hide Find, Split;
    SplitFrom(input, delim, start);
    var f := Find(input, delim, start);
    if f.Some? {
      var next := f.value + |delim|;
      if next < TWO_32 {
        FitsIff(input, delim, next);
      } else {
        LastPieceIsShort(input[next..], delim);
      }
    }
  }

  lemma {:induction false} LastPieceIsShort(s: string, delim: string)
    requires delim != ""
    ensures var pieces := Split(s, delim); |pieces[|pieces| - 1]| <= |s|
    decreases |s|
  {
    var f := Find(s, delim, 0);
    if f.Some? { LastPieceIsShort(s[f.value + |delim|..], delim); }
  }

  /** The common case: a non-empty delimiter and an input shorter than 2^32. */
  lemma ShortInputsAreSplit(input: string, delim: string)
    requires delim != "" && |input| < TWO_32
    ensures Halts(input, delim, |input|)
    ensures forall fuel: nat :: Halts(input, delim, fuel) ==> Parse(input, delim, 0, fuel).value == Split(input, delim)
  {
    FitsIff(input, delim, 0);
    assert input[0..] == input;
    ParseIsSplit(input, delim, 0, |input|);
    forall fuel: nat | Halts(input, delim, fuel)
      ensures Parse(input, delim, 0, fuel).value == Split(input, delim)
    {
      if fuel <= |input| {
        FuelIsEnough(input, delim, 0, fuel, |input|);
      } else {
        FuelIsEnough(input, delim, 0, |input|, fuel);
      }
    }
  }

  /** Parsing what was joined gives the pieces, if and only if they were clean. */
  method ParseJoined(pieces: seq<string>, delim: string) returns (again: seq<string>)
    requires delim != "" && pieces != [] && |Join(pieces, delim)| < TWO_32
    ensures again == pieces <==> Clean(pieces, delim)
    ensures again != [] && Join(again, delim) == Join(pieces, delim)
    ensures forall i :: 0 <= i < |again| ==> Free(again[i], delim)
  {
    var s := Join(pieces, delim);
    ShortInputsAreSplit(s, delim);
    again := StringParser(s, delim);
    SplitOfJoin(pieces, delim);
    JoinOfSplit(s, delim);
    forall i | 0 <= i < |again| ensures Free(again[i], delim) { PiecesAreFree(s, delim, i); }
  }
}
