/** Shell-style patterns as Go's `filepath.Match` reads them on a
    Unix-like system: `*` matches any run of characters other than '/', `?`
    any one character other than '/', `[...]` a character class (ranges
    `a-z`, negation `[^...]`), and `\` makes the next character literal.
    A pattern is first read into tokens; a pattern that cannot be read is
    the library's ErrBadPattern.

    The matcher follows the library's loop: the pattern is cut into chunks
    at its stars, and a chunk after a star is placed at the first position
    where it fits, without later being moved back. `ShellFrom` is the
    textbook backtracking reading; the two agree on every name without a
    '/' (`MatchAgrees`) and can differ on a name with one
    (`LeftmostExample`). */
module Glob {
  import opened Wrappers

  const Separator: char := '/'

  datatype CharRange = CharRange(lo: char, hi: char)

  datatype Token =
    | Star
    | AnyChar
    | Lit(c: char)
    | Class(negated: bool, ranges: seq<CharRange>)

  /** One (possibly escaped) class character and what follows it. As in the
      library, a class character may not be '-' or ']' unescaped, and the
      class may not end right after it. */
  function ClassChar(p: string): (r: Option<(char, string)>)
    ensures r.Some? ==> 0 < |r.value.1| < |p|
  {
    if |p| == 0 || p[0] == '-' || p[0] == ']' then None
    else
      var q := if p[0] == '\\' then p[1..] else p;
      if |q| < 2 then None else Some((q[0], q[1..]))
  }

  /** The ranges of a class up to its closing ']', given those read so far,
      and what follows the ']'. The class needs at least one range. */
  function ClassRanges(p: string, acc: seq<CharRange>): (r: Option<(seq<CharRange>, string)>)
    ensures r.Some? ==> |r.value.1| < |p| && |r.value.0| > 0
    decreases |p|
  {
    if |p| > 0 && p[0] == ']' && |acc| > 0 then Some((acc, p[1..]))
    else
      match ClassChar(p)
      case None => None
      case Some((lo, rest)) =>
        if rest[0] == '-' then
          match ClassChar(rest[1..])
          case None => None
          case Some((hi, rest')) => ClassRanges(rest', acc + [CharRange(lo, hi)])
        else ClassRanges(rest, acc + [CharRange(lo, lo)])
  }

  /** The tokens of a pattern, or None for a malformed one. */
  function Parse(p: string): Option<seq<Token>>
    decreases |p|
  {
    if p == [] then Some([])
    else if p[0] == '*' then Prepend(Star, Parse(p[1..]))
    else if p[0] == '?' then Prepend(AnyChar, Parse(p[1..]))
    else if p[0] == '\\' then
      if |p| < 2 then None else Prepend(Lit(p[1]), Parse(p[2..]))
    else if p[0] == '[' then
      var negated := |p| > 1 && p[1] == '^';
      var body := if negated then p[2..] else p[1..];
      match ClassRanges(body, [])
      case None => None
      case Some((ranges, rest)) => Prepend(Class(negated, ranges), Parse(rest))
    else Prepend(Lit(p[0]), Parse(p[1..]))
  }

  function Prepend(t: Token, ts: Option<seq<Token>>): Option<seq<Token>>
  {
    if ts.Some? then Some([t] + ts.value) else None
  }

  /** The pattern is well formed (`filepath.Match` gives no error). */
  predicate Valid(p: string)
  {
    Parse(p).Some?
  }

  predicate InRanges(ranges: seq<CharRange>, c: char)
  {
    exists k :: 0 <= k < |ranges| && ranges[k].lo <= c <= ranges[k].hi
  }

  /** One token other than a star against one character, as `matchChunk`
      tests it: `?` refuses only the separator, while a literal or a class
      may match it. */
  predicate TokenMatches(t: Token, c: char)
  {
    match t
    case Star => false
    case AnyChar => c != Separator
    case Lit(d) => c == d
    case Class(negated, ranges) => InRanges(ranges, c) != negated
  }

  predicate NoSeparator(s: string)
  {
    forall k :: 0 <= k < |s| ==> s[k] != Separator
  }

  /** No separator at positions `from` up to `to`. */
  predicate NoSeparatorBetween(s: string, from: nat, to: nat)
    requires from <= to <= |s|
  {
    forall k :: from <= k < to ==> s[k] != Separator
  }

  /** The textbook reading of a shell pattern, used as the reference: the
      tokens from `p` on against the name from `q` on, where each star
      matches whichever run of characters without a separator lets the rest
      match. */
  function ShellFrom(ts: seq<Token>, p: nat, s: string, q: nat): bool
    requires p <= |ts| && q <= |s|
    decreases |ts| - p + (|s| - q)
  {
    if p == |ts| then q == |s|
    else if ts[p] == Star then
      ShellFrom(ts, p + 1, s, q) || (q < |s| && s[q] != Separator && ShellFrom(ts, p, s, q + 1))
    else q < |s| && TokenMatches(ts[p], s[q]) && ShellFrom(ts, p + 1, s, q + 1)
  }

  function ShellMatch(ts: seq<Token>, s: string): bool
  {
    ShellFrom(ts, 0, s, 0)
  }

  /** `scanChunk`, first half: the end of the run of stars starting at `i`. */
  function StarsEnd(ts: seq<Token>, i: nat): (e: nat)
    requires i <= |ts|
    ensures i <= e <= |ts|
    ensures e < |ts| ==> ts[e] != Star
    decreases |ts| - i
  {
    if i < |ts| && ts[i] == Star then StarsEnd(ts, i + 1) else i
  }

  lemma {:induction false} StarsEndStars(ts: seq<Token>, i: nat)
    requires i <= |ts|
    ensures forall k :: i <= k < StarsEnd(ts, i) ==> ts[k] == Star
    decreases |ts| - i
  {
    if i < |ts| && ts[i] == Star {
      StarsEndStars(ts, i + 1);
    }
  }

  /** `scanChunk`, second half: the chunk starting at `i` runs up to the
      next star, or to the end. */
  function ChunkEnd(ts: seq<Token>, i: nat): (e: nat)
    requires i <= |ts|
    ensures i <= e <= |ts|
    ensures e < |ts| ==> ts[e] == Star
    decreases |ts| - i
  {
    if i < |ts| && ts[i] != Star then ChunkEnd(ts, i + 1) else i
  }

  lemma {:induction false} ChunkEndNoStars(ts: seq<Token>, i: nat)
    requires i <= |ts|
    ensures forall k :: i <= k < ChunkEnd(ts, i) ==> ts[k] != Star
    decreases |ts| - i
  {
    if i < |ts| && ts[i] != Star {
      ChunkEndNoStars(ts, i + 1);
    }
  }

  /** `matchChunk` succeeds: the chunk `ts[i..e]`, which has no stars,
      matches the characters of `name` from `j` on, one per token. */
  predicate ChunkFits(ts: seq<Token>, i: nat, e: nat, name: string, j: nat)
    requires i <= e <= |ts| && j <= |name|
  {
    e - i <= |name| - j && forall k :: i <= k < e ==> TokenMatches(ts[k], name[j + (k - i)])
  }

  /** The chunk fits at `j`, and if it is the last chunk of the pattern it
      also ends the name there. */
  predicate FitsAt(ts: seq<Token>, i: nat, e: nat, name: string, j: nat)
    requires i <= e <= |ts| && j <= |name|
  {
    ChunkFits(ts, i, e, name, j) && (e < |ts| || |name| - j == e - i)
  }

  /** The search after a star in `Match`: the first position from `j` on
      where the chunk fits, found without skipping a separator. */
  function FirstFit(ts: seq<Token>, i: nat, e: nat, name: string, j: nat): (r: Option<nat>)
    requires i <= e <= |ts| && j <= |name|
    ensures r.Some? ==> j <= r.value && e - i <= |name| - r.value
    decreases |name| - j
  {
    if FitsAt(ts, i, e, name, j) then Some(j)
    else if j < |name| && name[j] != Separator then FirstFit(ts, i, e, name, j + 1)
    else None
  }

  /** The fit found is a fit, the first one reachable without crossing a
      separator, and when none is found there is none to be found. */
  lemma {:induction false} FirstFitIsFirst(ts: seq<Token>, i: nat, e: nat, name: string, j: nat)
    requires i <= e <= |ts| && j <= |name|
    ensures var r := FirstFit(ts, i, e, name, j);
      (r.Some? ==> FitsAt(ts, i, e, name, r.value) && NoSeparatorBetween(name, j, r.value) &&
                   forall k :: j <= k < r.value ==> !FitsAt(ts, i, e, name, k)) &&
      (r.None? ==> forall k :: j <= k <= |name| && NoSeparatorBetween(name, j, k) ==>
                     !FitsAt(ts, i, e, name, k))
    decreases |name| - j
  {
    if !FitsAt(ts, i, e, name, j) && j < |name| && name[j] != Separator {
      FirstFitIsFirst(ts, i, e, name, j + 1);
      forall k | j + 1 <= k <= |name| && NoSeparatorBetween(name, j, k)
        ensures NoSeparatorBetween(name, j + 1, k)
      {
      }
    }
  }

  /** Every fit reachable from `j` without crossing a separator lies at or
      after the first fit, which is then found and is a fit. */
  lemma FirstFitBefore(ts: seq<Token>, i: nat, e: nat, name: string, j: nat, k: nat)
    requires i <= e <= |ts| && j <= k <= |name|
    requires FitsAt(ts, i, e, name, k) && NoSeparatorBetween(name, j, k)
    ensures var r := FirstFit(ts, i, e, name, j);
      r.Some? && r.value <= k && FitsAt(ts, i, e, name, r.value)
  {
    FirstFitIsFirst(ts, i, e, name, j);
  }

  /** One pass of the loop in `filepath.Match`, with the pattern read from
      token `p` and the name from character `q` on: the stars and the chunk
      there are placed in the name, giving where the pattern and the name go
      on, or None when the chunk does not fit. A chunk after a star is
      placed at the first position where it fits and is never moved again;
      a chunk with no star before it must fit at once; the last chunk must
      end the name; a trailing star takes the rest of the name unless it
      holds a separator. */
  function Step(ts: seq<Token>, p: nat, name: string, q: nat): (r: Option<(nat, nat)>)
    requires p < |ts| && q <= |name|
    ensures r.Some? ==> p < r.value.0 <= |ts| && q <= r.value.1 <= |name|
  {
    var i := StarsEnd(ts, p);
    var e := ChunkEnd(ts, i);
    if i == |ts| then
      if NoSeparatorBetween(name, q, |name|) then Some((|ts|, |name|)) else None
    else if i == p then
      if FitsAt(ts, i, e, name, q) then Some((e, q + (e - i))) else None
    else
      match FirstFit(ts, i, e, name, q)
      case None => None
      case Some(j) => Some((e, j + (e - i)))
  }

  /** `filepath.Match` on a parsed pattern, from token `p` and character
      `q` on: the loop runs until the pattern is used up, and the name must
      then be used up too. */
  function GoMatchFrom(ts: seq<Token>, p: nat, name: string, q: nat): bool
    requires p <= |ts| && q <= |name|
    decreases |ts| - p
  {
    if p == |ts| then q == |name|
    else
      match Step(ts, p, name, q)
      case None => false
      case Some((p', q')) => GoMatchFrom(ts, p', name, q')
  }

  function GoMatch(ts: seq<Token>, name: string): bool
  {
    GoMatchFrom(ts, 0, name, 0)
  }

  /** `filepath.Match(pattern, name)`'s boolean: false for a malformed pattern. */
  function Match(pattern: string, name: string): bool
  {
    match Parse(pattern)
    case None => false
    case Some(ts) => GoMatch(ts, name)
  }

  // ---------------------------------------------------------------------
  // Go's leftmost placement agrees with the reference on names without a
  // separator.

  /** The reference matches the tokens from `p` on against the name from
      some position at or after `q`. */
  predicate ShellFromLater(ts: seq<Token>, p: nat, s: string, q: nat)
    requires p <= |ts| && q <= |s|
  {
    exists j :: q <= j <= |s| && ShellFrom(ts, p, s, j)
  }

  /** A star at `p` absorbs any run of a name without a separator. */
  lemma {:induction false} ShellStar(ts: seq<Token>, p: nat, s: string, q: nat)
    requires p < |ts| && ts[p] == Star && q <= |s| && NoSeparator(s)
    ensures ShellFrom(ts, p, s, q) <==> ShellFromLater(ts, p + 1, s, q)
    decreases |s| - q
  {
    if ShellFrom(ts, p, s, q) && !ShellFrom(ts, p + 1, s, q) {
      ShellStar(ts, p, s, q + 1);
    }
    if ShellFromLater(ts, p + 1, s, q) {
      var j :| q <= j <= |s| && ShellFrom(ts, p + 1, s, j);
      if j > q {
        ShellStar(ts, p, s, q + 1);
      }
    }
  }

  /** The run of stars from `p` up to `i` absorbs any run of a name without
      a separator. */
  lemma {:induction false} ShellStars(ts: seq<Token>, p: nat, i: nat, s: string, q: nat)
    requires p < i <= |ts| && i == StarsEnd(ts, p) && q <= |s| && NoSeparator(s)
    ensures ShellFrom(ts, p, s, q) <==> ShellFromLater(ts, i, s, q)
    decreases i - p
  {
    ShellStar(ts, p, s, q);
    if p + 1 < i {
      if ShellFrom(ts, p, s, q) {
        var j1 :| q <= j1 <= |s| && ShellFrom(ts, p + 1, s, j1);
        ShellStars(ts, p + 1, i, s, j1);
        var j2 :| j1 <= j2 <= |s| && ShellFrom(ts, i, s, j2);
      }
      if ShellFromLater(ts, i, s, q) {
        ShellStars(ts, p + 1, i, s, q);
      }
    }
  }

  /** The chunk fits at `j` when its first token matches there and the rest
      of it fits one character on. */
  lemma ChunkFitsStep(ts: seq<Token>, i: nat, e: nat, s: string, j: nat)
    requires i < e <= |ts| && j < |s|
    ensures ChunkFits(ts, i, e, s, j) <==> TokenMatches(ts[i], s[j]) && ChunkFits(ts, i + 1, e, s, j + 1)
  {
    if TokenMatches(ts[i], s[j]) && ChunkFits(ts, i + 1, e, s, j + 1) {
      forall k | i <= k < e ensures TokenMatches(ts[k], s[j + (k - i)]) {
        if k > i {
          assert j + 1 + (k - (i + 1)) == j + (k - i);
        }
      }
    }
    if ChunkFits(ts, i, e, s, j) {
      forall k | i + 1 <= k < e ensures TokenMatches(ts[k], s[j + 1 + (k - (i + 1))]) {
        assert j + 1 + (k - (i + 1)) == j + (k - i);
      }
    }
  }

  /** A chunk without stars matches, one token per character, the name from
      `j` on, and the rest of the pattern matches what follows. */
  lemma {:induction false} ShellChunk(ts: seq<Token>, i: nat, e: nat, s: string, j: nat)
    requires i <= e <= |ts| && j <= |s|
    requires forall k :: i <= k < e ==> ts[k] != Star
    ensures ShellFrom(ts, i, s, j) <==>
      ChunkFits(ts, i, e, s, j) && ShellFrom(ts, e, s, j + (e - i))
    decreases e - i
  {
    if i < e && j < |s| {
      ShellChunk(ts, i + 1, e, s, j + 1);
      assert j + 1 + (e - (i + 1)) == j + (e - i);
      ChunkFitsStep(ts, i, e, s, j);
    }
  }

  /** A pattern that goes on with a star matches from an earlier position
      of the name if it matches from a later one. */
  lemma ShellStarEarlier(ts: seq<Token>, p: nat, s: string, a: nat, b: nat)
    requires p < |ts| && ts[p] == Star && NoSeparator(s)
    requires a <= b <= |s| && ShellFrom(ts, p, s, b)
    ensures ShellFrom(ts, p, s, a)
  {
    ShellStar(ts, p, s, b);
    var j :| b <= j <= |s| && ShellFrom(ts, p + 1, s, j);
    ShellStar(ts, p, s, a);
  }

  /** `GoMatchFrom` is `Step` repeated. */
  lemma GoMatchStep(ts: seq<Token>, p: nat, s: string, q: nat)
    requires p < |ts| && q <= |s|
    ensures var r := Step(ts, p, s, q);
      GoMatchFrom(ts, p, s, q) == (r.Some? && GoMatchFrom(ts, r.value.0, s, r.value.1))
  {
  }

  /** `Step` on stars only. */
  lemma StepStars(ts: seq<Token>, p: nat, s: string, q: nat)
    requires p < |ts| && q <= |s| && NoSeparator(s) && StarsEnd(ts, p) == |ts|
    ensures Step(ts, p, s, q) == Some((|ts|, |s|))
  {
    assert NoSeparatorBetween(s, q, |s|);
  }

  /** `Step` on a chunk with no star before it. */
  lemma StepLeading(ts: seq<Token>, p: nat, e: nat, s: string, q: nat)
    requires p < |ts| && q <= |s| && StarsEnd(ts, p) == p && e == ChunkEnd(ts, p)
    ensures Step(ts, p, s, q) == if FitsAt(ts, p, e, s, q) then Some((e, q + (e - p))) else None
  {
  }

  /** `Step` on stars followed by a chunk. */
  lemma StepStarred(ts: seq<Token>, p: nat, i: nat, e: nat, s: string, q: nat)
    requires p < i < |ts| && q <= |s| && i == StarsEnd(ts, p) && e == ChunkEnd(ts, i)
    ensures var r := FirstFit(ts, i, e, s, q);
      Step(ts, p, s, q) == if r.None? then None else Some((e, r.value + (e - i)))
  {
  }

  /** On a name without a separator, taking each chunk at its first fit
      loses nothing: Go's `Match` gives the reference answer. */
  lemma {:induction false} GoMatchAgrees(ts: seq<Token>, p: nat, s: string, q: nat)
    requires p <= |ts| && q <= |s| && NoSeparator(s)
    ensures GoMatchFrom(ts, p, s, q) == ShellFrom(ts, p, s, q)
    decreases |ts| - p, 1
  {
    if p < |ts| {
      var i := StarsEnd(ts, p);
      if i == |ts| {
        AgreesStars(ts, p, s, q);
      } else if i == p {
        AgreesLeading(ts, p, s, q);
      } else {
        var e := ChunkEnd(ts, i);
        if FirstFit(ts, i, e, s, q).None? {
          AgreesStarredNone(ts, p, i, e, s, q);
        } else {
          AgreesStarredSome(ts, p, i, e, s, q);
        }
      }
    }
  }

  /** Only stars are left: both sides take the rest of the name. */
  lemma AgreesStars(ts: seq<Token>, p: nat, s: string, q: nat)
    requires p < |ts| && q <= |s| && NoSeparator(s) && StarsEnd(ts, p) == |ts|
    ensures GoMatchFrom(ts, p, s, q) && ShellFrom(ts, p, s, q)
  {
    StepStars(ts, p, s, q);
    GoMatchStep(ts, p, s, q);
    ShellStars(ts, p, |ts|, s, q);
    assert ShellFrom(ts, |ts|, s, |s|);
  }

  /** A chunk comes first: both sides need it to fit at once. */
  lemma {:induction false} AgreesLeading(ts: seq<Token>, p: nat, s: string, q: nat)
    requires p < |ts| && q <= |s| && NoSeparator(s) && StarsEnd(ts, p) == p
    ensures GoMatchFrom(ts, p, s, q) == ShellFrom(ts, p, s, q)
    decreases |ts| - p, 0
  {
    var e := ChunkEnd(ts, p);
    ChunkEndNoStars(ts, p);
    ShellChunk(ts, p, e, s, q);
    StepLeading(ts, p, e, s, q);
    GoMatchStep(ts, p, s, q);
    if FitsAt(ts, p, e, s, q) {
      GoMatchAgrees(ts, e, s, q + (e - p));
    }
  }

  /** Stars, then a chunk that fits nowhere: neither side matches. */
  lemma AgreesStarredNone(ts: seq<Token>, p: nat, i: nat, e: nat, s: string, q: nat)
    requires p < i < |ts| && q <= |s| && NoSeparator(s) && i == StarsEnd(ts, p) && e == ChunkEnd(ts, i)
    requires FirstFit(ts, i, e, s, q).None?
    ensures !GoMatchFrom(ts, p, s, q) && !ShellFrom(ts, p, s, q)
  {
    StepStarred(ts, p, i, e, s, q);
    GoMatchStep(ts, p, s, q);
    ShellStarChunkNone(ts, p, i, e, s, q);
  }

  /** Stars, then a chunk: Go's first fit settles the reference too. */
  lemma {:induction false} AgreesStarredSome(ts: seq<Token>, p: nat, i: nat, e: nat, s: string, q: nat)
    requires p < i < |ts| && q <= |s| && NoSeparator(s) && i == StarsEnd(ts, p) && e == ChunkEnd(ts, i)
    requires FirstFit(ts, i, e, s, q).Some?
    ensures GoMatchFrom(ts, p, s, q) == ShellFrom(ts, p, s, q)
    decreases |ts| - p, 0
  {
    var j0 := FirstFit(ts, i, e, s, q).value;
    GoMatchStarred(ts, p, i, e, s, q, j0);
    ShellStarChunkSome(ts, p, i, e, s, q, j0);
    GoMatchAgrees(ts, e, s, j0 + (e - i));
  }

  /** Go goes on after the first fit of the chunk that follows the stars. */
  lemma GoMatchStarred(ts: seq<Token>, p: nat, i: nat, e: nat, s: string, q: nat, j0: nat)
    requires p < i < |ts| && q <= |s| && i == StarsEnd(ts, p) && e == ChunkEnd(ts, i)
    requires FirstFit(ts, i, e, s, q) == Some(j0)
    ensures j0 + (e - i) <= |s| && GoMatchFrom(ts, p, s, q) == GoMatchFrom(ts, e, s, j0 + (e - i))
  {
    StepStarred(ts, p, i, e, s, q);
    GoMatchStep(ts, p, s, q);
  }

  /** A placement of the chunk after the stars that the reference can use
      is a place where the chunk fits. */
  lemma ShellPlacement(ts: seq<Token>, i: nat, e: nat, s: string, j: nat)
    requires i < e <= |ts| && e == ChunkEnd(ts, i)
    requires j <= |s| && ShellFrom(ts, i, s, j)
    ensures FitsAt(ts, i, e, s, j) && j + (e - i) <= |s|
    ensures ShellFrom(ts, e, s, j + (e - i))
  {
    ChunkEndNoStars(ts, i);
    ShellChunk(ts, i, e, s, j);
  }

  /** Stars, then a chunk, in the reference, when the chunk has no fit:
      there is no match. */
  lemma ShellStarChunkNone(ts: seq<Token>, p: nat, i: nat, e: nat, s: string, q: nat)
    requires NoSeparator(s) && q <= |s|
    requires p < i < e <= |ts| && i == StarsEnd(ts, p) && e == ChunkEnd(ts, i)
    requires FirstFit(ts, i, e, s, q).None?
    ensures !ShellFrom(ts, p, s, q)
  {
    ShellStars(ts, p, i, s, q);
    if ShellFrom(ts, p, s, q) {
      var j :| q <= j <= |s| && ShellFrom(ts, i, s, j);
      ShellPlacement(ts, i, e, s, j);
      FirstFitBefore(ts, i, e, s, q, j);
      assert false;
    }
  }

  /** Stars, then a chunk, in the reference, when the chunk first fits at
      `j0`: the reference reduces to the rest of the pattern against the
      rest of the name, because any later fit it could use is covered by the
      star that follows. */
  lemma ShellStarChunkSome(ts: seq<Token>, p: nat, i: nat, e: nat, s: string, q: nat, j0: nat)
    requires NoSeparator(s) && q <= |s|
    requires p < i < e <= |ts| && i == StarsEnd(ts, p) && e == ChunkEnd(ts, i)
    requires FirstFit(ts, i, e, s, q) == Some(j0)
    ensures j0 + (e - i) <= |s|
    ensures ShellFrom(ts, p, s, q) == ShellFrom(ts, e, s, j0 + (e - i))
  {
    FirstFitIsFirst(ts, i, e, s, q);
    ShellFirstFitBack(ts, p, i, e, s, q, j0);
    ShellFirstFitForth(ts, p, i, e, s, q, j0);
  }

  /** The first fit, followed by a match of the rest, is a match. */
  lemma ShellFirstFitBack(ts: seq<Token>, p: nat, i: nat, e: nat, s: string, q: nat, j0: nat)
    requires NoSeparator(s)
    requires p < i < e <= |ts| && i == StarsEnd(ts, p) && e == ChunkEnd(ts, i)
    requires q <= j0 <= |s| && ChunkFits(ts, i, e, s, j0)
    ensures ShellFrom(ts, e, s, j0 + (e - i)) ==> ShellFrom(ts, p, s, q)
  {
    if ShellFrom(ts, e, s, j0 + (e - i)) {
      ChunkEndNoStars(ts, i);
      ShellChunk(ts, i, e, s, j0);
      ShellStars(ts, p, i, s, q);
    }
  }

  /** A match places the chunk at the first fit or later, and the rest of
      the pattern then also matches from the first fit on. */
  lemma ShellFirstFitForth(ts: seq<Token>, p: nat, i: nat, e: nat, s: string, q: nat, j0: nat)
    requires NoSeparator(s) && q <= |s|
    requires p < i < e <= |ts| && i == StarsEnd(ts, p) && e == ChunkEnd(ts, i)
    requires FirstFit(ts, i, e, s, q) == Some(j0)
    ensures ShellFrom(ts, p, s, q) ==> ShellFrom(ts, e, s, j0 + (e - i))
  {
    if ShellFrom(ts, p, s, q) {
      ShellStars(ts, p, i, s, q);
      var j :| q <= j <= |s| && ShellFrom(ts, i, s, j);
      ShellPlacement(ts, i, e, s, j);
      FirstFitBefore(ts, i, e, s, q, j);
      ShellRestEarlier(ts, e, s, j0 + (e - i), j + (e - i));
    }
  }

  /** What follows a chunk matches from the first fit on if it matches from
      a later one: either it starts with a star, or both fits end the name. */
  lemma ShellRestEarlier(ts: seq<Token>, e: nat, s: string, a: nat, b: nat)
    requires e <= |ts| && NoSeparator(s) && (e < |ts| ==> ts[e] == Star)
    requires a <= b <= |s| && ShellFrom(ts, e, s, b)
    requires e == |ts| ==> a == |s|
    ensures ShellFrom(ts, e, s, a)
  {
    if e < |ts| {
      ShellStarEarlier(ts, e, s, a, b);
    }
  }

  /** `Match` gives the reference answer on every name without a '/'. */
  lemma MatchAgrees(pattern: string, name: string)
    requires NoSeparator(name)
    ensures Match(pattern, name) <==> Valid(pattern) && ShellMatch(Parse(pattern).value, name)
  {
    if Valid(pattern) {
      GoMatchAgrees(Parse(pattern).value, 0, name, 0);
    }
  }

  /** No character of `p` has a meaning in a pattern. */
  predicate Plain(p: string)
  {
    forall k :: 0 <= k < |p| ==> p[k] !in {'*', '?', '[', '\\'}
  }

  /** The tokens of a plain pattern: one literal per character. */
  function Lits(p: string): (ts: seq<Token>)
    ensures |ts| == |p|
    ensures forall k :: 0 <= k < |p| ==> ts[k] == Lit(p[k])
  {
    seq(|p|, k requires 0 <= k < |p| => Lit(p[k]))
  }

  lemma {:induction false} ParsePlain(p: string)
    requires Plain(p)
    ensures Parse(p) == Some(Lits(p))
  {
    if p != [] {
      assert p[0] !in {'*', '?', '[', '\\'};
      assert Plain(p[1..]) by {
        forall k | 0 <= k < |p[1..]| ensures p[1..][k] !in {'*', '?', '[', '\\'} {
          assert p[1..][k] == p[k + 1];
        }
      }
      ParsePlain(p[1..]);
      assert Lits(p) == [Lit(p[0])] + Lits(p[1..]);
    }
  }

  /** A pattern without stars is a single chunk: it matches exactly the
      names of its own length that it fits, '/' or not. */
  lemma SingleChunk(ts: seq<Token>, s: string)
    requires ts != [] && forall k :: 0 <= k < |ts| ==> ts[k] != Star
    ensures GoMatch(ts, s) <==> |s| == |ts| && ChunkFits(ts, 0, |ts|, s, 0)
  {
    assert StarsEnd(ts, 0) == 0;
    var e := ChunkEnd(ts, 0);
    assert e == |ts|;
    if FitsAt(ts, 0, e, s, 0) {
      assert Step(ts, 0, s, 0) == Some((e, e));
      assert GoMatchFrom(ts, e, s, e);
      assert GoMatch(ts, s);
    } else {
      assert Step(ts, 0, s, 0) == None;
    }
  }

  lemma MatchLiterals(p: string, s: string)
    ensures GoMatch(Lits(p), s) <==> s == p
  {
    if p != [] {
      SingleChunk(Lits(p), s);
      if |s| == |p| && ChunkFits(Lits(p), 0, |p|, s, 0) {
        assert forall k :: 0 <= k < |p| ==> s[k] == p[k];
      }
    }
  }

  /** A pattern with no special character matches exactly itself. */
  lemma PlainMatchesItself(p: string, s: string)
    requires Plain(p)
    ensures Valid(p)
    ensures Match(p, s) <==> s == p
  {
    ParsePlain(p);
    MatchLiterals(p, s);
  }

  /** A lone `*` matches every name without a '/'. */
  lemma StarMatchesAll(s: string)
    ensures Match("*", s) <==> Separator !in s
  {
    var star := "*";
    assert star[0] == '*' && star[1..] == [];
    var empty: string := [];
    assert Parse(empty) == Some([]);
    assert Parse(star) == Prepend(Star, Parse(empty));
    assert [Star] + [] == [Star];
    assert Parse(star) == Some([Star]);
    assert StarsEnd([Star], 0) == 1;
    assert NoSeparatorBetween(s, 0, |s|) <==> Separator !in s;
  }

  lemma ParseQuestionMarkExample()
    ensures Parse("a?c.com") == Some([Lit('a'), AnyChar] + Lits("c.com"))
  {
    var tail := Lits("c.com");
    ParsePlain("c.com");
    var p, q := "a?c.com", "?c.com";
    assert p[0] == 'a' && p[1..] == q && q[0] == '?' && q[1..] == "c.com";
    assert Parse(q) == Prepend(AnyChar, Parse("c.com"));
    assert Parse(p) == Prepend(Lit('a'), Parse(q));
    assert [Lit('a')] + ([AnyChar] + tail) == [Lit('a'), AnyChar] + tail;
  }

  /** `a` then any one character then `rest`, against `name`. */
  lemma MatchLitAnyLits(rest: string, name: string)
    ensures GoMatch([Lit('a'), AnyChar] + Lits(rest), name) <==>
      |name| >= 2 && name[0] == 'a' && name[1] != Separator && name[2..] == rest
  {
    var ts := [Lit('a'), AnyChar] + Lits(rest);
    forall k | 0 <= k < |ts| ensures ts[k] != Star {
      if k >= 2 {
        assert ts[k] == Lits(rest)[k - 2];
      }
    }
    SingleChunk(ts, name);
    if |name| == |ts| {
      if ChunkFits(ts, 0, |ts|, name, 0) {
        assert TokenMatches(ts[0], name[0]) && TokenMatches(ts[1], name[1]);
        forall k | 0 <= k < |rest| ensures name[2..][k] == rest[k] {
          assert ts[k + 2] == Lit(rest[k]);
          assert TokenMatches(ts[k + 2], name[0 + (k + 2 - 0)]);
        }
      }
      if name[0] == 'a' && name[1] != Separator && name[2..] == rest {
        forall k | 0 <= k < |ts| ensures TokenMatches(ts[k], name[0 + (k - 0)]) {
          if k >= 2 {
            assert ts[k] == Lit(rest[k - 2]) && name[k] == name[2..][k - 2];
          }
        }
        assert ChunkFits(ts, 0, |ts|, name, 0);
      }
    }
  }

  /** The `a?c.com` example: `?` stands for exactly one character. */
  lemma QuestionMarkExample()
    ensures Match("a?c.com", "abc.com") && Match("a?c.com", "axc.com")
    ensures !Match("a?c.com", "ac.com") && !Match("a?c.com", "abbc.com")
  {
    ParseQuestionMarkExample();
    MatchLitAnyLits("c.com", "abc.com");
    MatchLitAnyLits("c.com", "axc.com");
    MatchLitAnyLits("c.com", "ac.com");
    MatchLitAnyLits("c.com", "abbc.com");
    assert "abc.com"[2..] == "c.com" && "axc.com"[2..] == "c.com";
    assert "ac.com"[2..] != "c.com" && "abbc.com"[2..] != "c.com";
  }

  /** The characters of the class in `*[a/]*x`. */
  lemma ClassLeftmostExample()
    ensures ClassRanges("a/]*x", []) == Some(([CharRange('a', 'a'), CharRange('/', '/')], "*x"))
  {
    var body, mid, close, starX := "a/]*x", "/]*x", "]*x", "*x";
    var first, acc := [CharRange('a', 'a')], [CharRange('a', 'a'), CharRange('/', '/')];
    assert body[0] == 'a' && body[1..] == mid && mid[0] == '/';
    assert ClassChar(body) == Some(('a', mid));
    assert mid[1..] == close && close[0] == ']' && close[1..] == starX;
    assert ClassChar(mid) == Some(('/', close));
    assert [] + [CharRange('a', 'a')] == first && first + [CharRange('/', '/')] == acc;
    assert ClassRanges(close, acc) == Some((acc, starX));
    assert ClassRanges(mid, first) == ClassRanges(close, acc);
  }

  /** The tokens of `*[a/]*x`. */
  lemma ParseLeftmostExample()
    ensures Parse("*[a/]*x") ==
      Some([Star, Class(false, [CharRange('a', 'a'), CharRange('/', '/')]), Star, Lit('x')])
  {
    var p0, p1, starX, x := "*[a/]*x", "[a/]*x", "*x", "x";
    var acc := [CharRange('a', 'a'), CharRange('/', '/')];
    ClassLeftmostExample();
    assert p0[0] == '*' && p0[1..] == p1;
    assert p1[0] == '[' && p1[1] != '^' && p1[1..] == "a/]*x";
    assert starX[0] == '*' && starX[1..] == x && x[0] == 'x' && x[1..] == [];
    assert Parse(x[1..]) == Some([]);
    assert [Lit('x')] + [] == [Lit('x')];
    assert Parse(x) == Some([Lit('x')]);
    assert Parse(starX) == Prepend(Star, Parse(x));
    assert [Star] + [Lit('x')] == [Star, Lit('x')];
    assert Parse(starX) == Some([Star, Lit('x')]);
    assert Parse(p1) == Prepend(Class(false, acc), Parse(starX));
    assert Parse(p0) == Prepend(Star, Parse(p1));
    assert [Star] + ([Class(false, acc)] + [Star, Lit('x')]) == [Star, Class(false, acc), Star, Lit('x')];
  }

  /** Go's placement is not the reference on a name with a '/': in
      `*[a/]*x` against `a/x`, the class takes the 'a' at the first fit and
      the second star cannot then skip the '/', so `Match` is false, while
      the reference lets the first star take the 'a' and the class the '/'. */
  lemma LeftmostExample()
    ensures !Match("*[a/]*x", "a/x")
    ensures Valid("*[a/]*x") && ShellMatch(Parse("*[a/]*x").value, "a/x")
  {
    ParseLeftmostExample();
    var c := Class(false, [CharRange('a', 'a'), CharRange('/', '/')]);
    var ts := [Star, c, Star, Lit('x')];
    var s, t := "a/x", "/x";
    assert c.ranges[0].lo <= 'a' <= c.ranges[0].hi && InRanges(c.ranges, 'a');
    assert c.ranges[1].lo <= '/' <= c.ranges[1].hi && InRanges(c.ranges, '/');
    assert StarsEnd(ts, 0) == 1 && ChunkEnd(ts, 1) == 2;
    assert FitsAt(ts, 1, 2, s, 0);
    assert FirstFit(ts, 1, 2, s, 0) == Some(0);
    assert Step(ts, 0, s, 0) == Some((2, 1));
    assert StarsEnd(ts, 2) == 3 && ChunkEnd(ts, 3) == 4;
    assert !FitsAt(ts, 3, 4, s, 1);
    assert FirstFit(ts, 3, 4, s, 1) == None;
    assert Step(ts, 2, s, 1) == None;
    assert !GoMatch(ts, s);
    assert ShellFrom(ts, 4, s, 3);
    assert ShellFrom(ts, 3, s, 2);
    assert ShellFrom(ts, 2, s, 2);
    assert ShellFrom(ts, 1, s, 1);
    assert ShellFrom(ts, 0, s, 1);
    assert ShellFrom(ts, 0, s, 0);
  }
}
