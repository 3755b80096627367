/** Splitting, joining and replacing byte strings. */
module StringOps {
  import opened Options

  newtype Byte = x: int | 0 <= x < 256

  type Bytes = seq<Byte>

  predicate OccursAt(hay: Bytes, needle: Bytes, i: int) {
    0 <= i <= |hay| - |needle| && hay[i..i + |needle|] == needle
  }

  ghost predicate Contains(hay: Bytes, needle: Bytes) {
    exists i :: OccursAt(hay, needle, i)
  }

  /** The answer is the leftmost occurrence, if there is one. */
  ghost predicate IsFirst(hay: Bytes, needle: Bytes, found: Option<nat>) {
    match found
    case Some(i) => OccursAt(hay, needle, i) && forall j :: j < i ==> !OccursAt(hay, needle, j)
    case None => !Contains(hay, needle)
  }

  function Find(hay: Bytes, needle: Bytes): (r: Option<nat>)
    ensures IsFirst(hay, needle, r)
  {
    FindFrom(hay, needle, 0)
  }

  function FindFrom(hay: Bytes, needle: Bytes, i: nat): (r: Option<nat>)
    requires forall j :: j < i ==> !OccursAt(hay, needle, j)
    ensures IsFirst(hay, needle, r)
    decreases |hay| - i
  {
    if i > |hay| - |needle| then None
    else if OccursAt(hay, needle, i) then Some(i)
    else FindFrom(hay, needle, i + 1)
  }

  lemma FirstUnique(hay: Bytes, needle: Bytes, a: Option<nat>, b: Option<nat>)
    requires IsFirst(hay, needle, a) && IsFirst(hay, needle, b)
    ensures a == b
  {
    if a.Some? && b.Some? {
      assert a.value <= b.value && b.value <= a.value;
    }
  }

  /** `ring_memmem`. */
  method MemMem(hay: Bytes, needle: Bytes) returns (r: Option<nat>)
    ensures r == Find(hay, needle)
  {
    if |needle| == 0 {
      assert OccursAt(hay, needle, 0);
      return Some(0);
    }
    if |needle| > |hay| {
      return None;
    }
    for i := 0 to |hay| - |needle| + 1
      invariant forall j :: j < i ==> !OccursAt(hay, needle, j)
    {
      if hay[i..i + |needle|] == needle {
        FirstUnique(hay, needle, Some(i), Find(hay, needle));
        return Some(i);
      }
    }
    FirstUnique(hay, needle, None, Find(hay, needle));
    r := None;
  }

  // ---------------------------------------------------------------------
  // Meaning
  // ---------------------------------------------------------------------

  function Singles(s: Bytes): seq<Bytes> {
    if s == [] then [] else [[s[0]]] + Singles(s[1..])
  }

  /** What follows an occurrence of a delimiter. */
  function Beyond(s: Bytes, i: nat, d: Bytes): (r: Bytes)
    requires i + |d| <= |s|
    ensures |r| == |s| - i - |d|
  {
    s[i + |d|..]
  }

  /** The pieces of a string: single bytes for an empty delimiter, otherwise
      cut at the leftmost occurrence, then the rest. */
  function Split(s: Bytes, d: Bytes): seq<Bytes>
    decreases |s|
  {
    if d == [] then Singles(s)
    else
      match Find(s, d)
      case None => [s]
      case Some(i) => [s[..i]] + Split(Beyond(s, i, d), d)
  }

  function Join(d: Bytes, pieces: seq<Bytes>): Bytes {
    if pieces == [] then []
    else if |pieces| == 1 then pieces[0]
    else pieces[0] + d + Join(d, pieces[1..])
  }

  lemma {:induction false} JoinSingles(s: Bytes)
    ensures Join([], Singles(s)) == s
  {
    if s != [] {
      JoinSingles(s[1..]);
      assert Singles(s)[1..] == Singles(s[1..]);
      assert [s[0]] + [] + s[1..] == s;
      if s[1..] == [] {
        assert s == [s[0]];
      }
    }
  }

  /** Joining the pieces of a string with the delimiter gives it back. */
  lemma {:induction false} JoinSplit(s: Bytes, d: Bytes)
    ensures Join(d, Split(s, d)) == s
    decreases |s|
  {
    if d == [] {
      JoinSingles(s);
    } else {
      var f := Find(s, d);
      if f.Some? {
        JoinSplit(Beyond(s, f.value, d), d);
        ReplacedFirst(s, d, d, f.value);
        CutApart(s, d, f.value);
      }
    }
  }

  lemma CutApart(s: Bytes, d: Bytes, i: nat)
    requires OccursAt(s, d, i)
    ensures s == s[..i] + d + Beyond(s, i, d)
  {
  }

  /** What replacing means: split, then join with something else. */
  function Replaced(s: Bytes, source: Bytes, target: Bytes): Bytes {
    Join(target, Split(s, source))
  }

  lemma ReplacedFirst(s: Bytes, source: Bytes, target: Bytes, i: nat)
    requires source != [] && Find(s, source) == Some(i)
    ensures Replaced(s, source, target) == s[..i] + target + Replaced(Beyond(s, i, source), source, target)
  {
    SplitNotEmpty(Beyond(s, i, source), source);
    assert Split(s, source)[1..] == Split(Beyond(s, i, source), source);
  }

  lemma SplitNotEmpty(s: Bytes, d: Bytes)
    requires d != []
    ensures Split(s, d) != []
  {
  }

  lemma OccursInPrefix(s: Bytes, d: Bytes, i: nat, j: int)
    requires i <= |s|
    ensures OccursAt(s[..i], d, j) ==> OccursAt(s, d, j) && j <= i - |d|
  {
    assert 0 <= j <= i - |d| ==> s[..i][j..j + |d|] == s[j..j + |d|];
  }

  lemma PrefixFree(s: Bytes, d: Bytes, i: nat)
    requires d != [] && i <= |s| && forall j :: j < i ==> !OccursAt(s, d, j)
    ensures !Contains(s[..i], d)
  {
    forall j ensures !OccursAt(s[..i], d, j) {
      OccursInPrefix(s, d, i, j);
    }
  }

  /** No piece contains the delimiter. */
  lemma {:induction false} PiecesFree(s: Bytes, d: Bytes)
    requires d != []
    ensures forall p :: p in Split(s, d) ==> !Contains(p, d)
    decreases |s|
  {
    var f := Find(s, d);
    if f.Some? {
      PrefixFree(s, d, f.value);
      PiecesFree(Beyond(s, f.value, d), d);
    }
  }

  /** A piece ends where the delimiter first shows up after it. */
  predicate EndsAt(p: Bytes, d: Bytes) {
    Find(p + d, d) == Some(|p|)
  }

  /** Single bytes for an empty delimiter; otherwise pieces that it keeps
      apart. */
  ghost predicate Separable(pieces: seq<Bytes>, d: Bytes) {
    if d == [] then forall i :: 0 <= i < |pieces| ==> |pieces[i]| == 1 else KeptApart(pieces, d)
  }

  ghost predicate KeptApart(pieces: seq<Bytes>, d: Bytes) {
    pieces != [] && !Contains(pieces[|pieces| - 1], d) && forall i :: 0 <= i < |pieces| - 1 ==> EndsAt(pieces[i], d)
  }

  lemma FirstCut(p: Bytes, d: Bytes, rest: Bytes)
    requires d != []
    ensures Find(p + d + rest, d) == Some(|p|) <==> EndsAt(p, d)
  {
    var s := p + d + rest;
    assert s[|p|..|p| + |d|] == d && (p + d)[|p|..] == d;
    forall j | j <= |p| ensures OccursAt(s, d, j) <==> OccursAt(p + d, d, j) {
      if 0 <= j {
        assert s[j..j + |d|] == (p + d)[j..j + |d|];
      }
    }
    if EndsAt(p, d) {
      FirstUnique(s, d, Some(|p|), Find(s, d));
    }
    if Find(s, d) == Some(|p|) {
      FirstUnique(p + d, d, Some(|p|), Find(p + d, d));
    }
  }

  /** Splitting undoes joining exactly for pieces the delimiter separates. */
  lemma SplitJoin(pieces: seq<Bytes>, d: Bytes)
    ensures Split(Join(d, pieces), d) == pieces <==> Separable(pieces, d)
  {
    if d == [] {
      SinglesJoin(pieces);
    } else {
      SplitJoinApart(pieces, d);
    }
  }

  /** A piece that is the delimiter itself comes back as two empty ones. */
  lemma DelimiterPiece(d: Bytes)
    requires d != []
    ensures Split(Join(d, [d]), d) != [d]
  {
    assert OccursAt(d, d, 0);
    SplitJoin([d], d);
  }

  lemma {:induction false} SinglesShape(s: Bytes)
    ensures |Singles(s)| == |s| && forall i :: 0 <= i < |Singles(s)| ==> |Singles(s)[i]| == 1
  {
    if s != [] {
      SinglesShape(s[1..]);
    }
  }

  lemma {:induction false} SinglesJoin(pieces: seq<Bytes>)
    ensures Singles(Join([], pieces)) == pieces <==> forall i :: 0 <= i < |pieces| ==> |pieces[i]| == 1
  {
    SinglesShape(Join([], pieces));
    if pieces != [] && |pieces[0]| == 1 {
      var rest := pieces[1..];
      SinglesJoin(rest);
      JoinedFirst(pieces);
      assert forall i :: 0 < i < |pieces| ==> pieces[i] == rest[i - 1];
      assert forall i :: 0 <= i < |rest| ==> rest[i] == pieces[i + 1];
    }
  }

  lemma JoinedFirst(pieces: seq<Bytes>)
    requires pieces != [] && |pieces[0]| == 1
    ensures Singles(Join([], pieces)) == [pieces[0]] + Singles(Join([], pieces[1..]))
  {
    var joined := Join([], pieces);
    assert joined == pieces[0] + Join([], pieces[1..]);
    assert joined[1..] == Join([], pieces[1..]);
    assert pieces[0] == [joined[0]];
  }

  lemma {:induction false} SplitJoinApart(pieces: seq<Bytes>, d: Bytes)
    requires d != []
    ensures Split(Join(d, pieces), d) == pieces <==> KeptApart(pieces, d)
    decreases |pieces|
  {
    var s := Join(d, pieces);
    SplitNotEmpty(s, d);
    if |pieces| == 1 {
      PiecesFree(s, d);
    } else if |pieces| > 1 {
      var p, rest := pieces[0], Join(d, pieces[1..]);
      FirstCut(p, d, rest);
      SplitJoinApart(pieces[1..], d);
      ApartTail(pieces, d);
      SplitStep(p, d, rest, pieces);
    }
  }

  lemma ApartTail(pieces: seq<Bytes>, d: Bytes)
    requires |pieces| > 1
    ensures KeptApart(pieces, d) <==> EndsAt(pieces[0], d) && KeptApart(pieces[1..], d)
  {
    assert forall i :: 0 < i < |pieces| - 1 ==> pieces[i] == pieces[1..][i - 1];
    assert forall i :: 0 <= i < |pieces| - 2 ==> pieces[i + 1] == pieces[1..][i];
  }

  lemma SplitStep(p: Bytes, d: Bytes, rest: Bytes, pieces: seq<Bytes>)
    requires d != [] && |pieces| > 1 && pieces[0] == p
    requires Find(p + d + rest, d) == Some(|p|) <==> EndsAt(p, d)
    ensures Split(p + d + rest, d) == pieces <==> EndsAt(p, d) && Split(rest, d) == pieces[1..]
  {
    var s := p + d + rest;
    var f := Find(s, d);
    if f.Some? {
      var tail := Split(Beyond(s, f.value, d), d);
      assert Split(s, d) == [s[..f.value]] + tail;
      if EndsAt(p, d) {
        assert s[..|p|] == p && Beyond(s, |p|, d) == rest;
        assert ([p] + tail)[1..] == tail;
      } else {
        assert |s[..f.value]| != |p|;
      }
    } else {
      assert s[|p|..|p| + |d|] == d;
      assert OccursAt(s, d, |p|);
    }
  }

  // ---------------------------------------------------------------------
  // The operations
  // ---------------------------------------------------------------------

  /** `ring_str_split`. */
  method SplitLoop(s: Bytes, d: Bytes) returns (pieces: seq<Bytes>)
    ensures pieces == Split(s, d)
  {
    if |d| == 0 {
      pieces := [];
      for i := 0 to |s|
        invariant pieces + Singles(s[i..]) == Singles(s)
      {
        assert s[i..][1..] == s[i + 1..];
        pieces := pieces + [[s[i]]];
      }
    } else {
      pieces := SplitAtAll(s, d);
    }
  }

  /** The pieces found so far, and those still to come from the rest. */
  ghost predicate SplitSoFar(pieces: seq<Bytes>, rest: Bytes, d: Bytes, s: Bytes) {
    pieces + Split(rest, d) == Split(s, d)
  }

  lemma SplitOnce(pieces: seq<Bytes>, rest: Bytes, d: Bytes, s: Bytes, i: nat)
    requires d != [] && SplitSoFar(pieces, rest, d, s) && Find(rest, d) == Some(i)
    ensures SplitSoFar(pieces + [rest[..i]], Beyond(rest, i, d), d, s)
  {
    PieceMoved(pieces, rest[..i], Split(Beyond(rest, i, d), d));
  }

  lemma PieceMoved(pieces: seq<Bytes>, piece: Bytes, tail: seq<Bytes>)
    ensures pieces + ([piece] + tail) == pieces + [piece] + tail
  {
  }

  lemma SplitLast(pieces: seq<Bytes>, rest: Bytes, d: Bytes, s: Bytes)
    requires d != [] && SplitSoFar(pieces, rest, d, s) && Find(rest, d) == None
    ensures pieces + [rest] == Split(s, d)
  {
  }

  /** One cursor runs over the string. */
  method SplitAtAll(s: Bytes, d: Bytes) returns (pieces: seq<Bytes>)
    requires d != []
    ensures pieces == Split(s, d)
  {
    pieces := [];
    var pos := 0;
    ghost var rest := s;
    var found := MemMem(s, d);
    while found.Some?
      invariant pos <= |s| && rest == s[pos..] && found == Find(rest, d) && SplitSoFar(pieces, rest, d, s)
      decreases |rest|
    {
      SplitOnce(pieces, rest, d, s, found.value);
      var piece;
      piece, pos := CutPiece(s, pos, found.value, d, rest);
      pieces, rest := pieces + [piece], Beyond(rest, found.value, d);
      found := MemMem(s[pos..], d);
    }
    SplitLast(pieces, rest, d, s);
    pieces := pieces + [s[pos..]];
  }

  /** The piece up to an occurrence, and the cursor beyond it. */
  method CutPiece(s: Bytes, pos: nat, i: nat, d: Bytes, ghost rest: Bytes) returns (piece: Bytes, pos': nat)
    requires pos <= |s| && rest == s[pos..] && i + |d| <= |rest|
    ensures piece == rest[..i] && pos' <= |s| && s[pos'..] == Beyond(rest, i, d)
  {
    piece, pos' := s[pos..pos + i], pos + i + |d|;
  }

  /** `ring_str_join`. */
  method JoinLoop(d: Bytes, pieces: seq<Bytes>) returns (r: Bytes)
    ensures r == Join(d, pieces)
  {
    r := [];
    for i := 0 to |pieces|
      invariant r == Join(d, pieces[..i])
    {
      JoinSnoc(d, pieces[..i], pieces[i]);
      assert pieces[..i + 1] == pieces[..i] + [pieces[i]];
      if i > 0 {
        r := r + d;
      }
      r := r + pieces[i];
    }
    assert pieces[..|pieces|] == pieces;
  }

  lemma {:induction false} JoinSnoc(d: Bytes, pieces: seq<Bytes>, p: Bytes)
    ensures Join(d, pieces + [p]) == if pieces == [] then p else Join(d, pieces) + d + p
  {
    if pieces != [] {
      assert (pieces + [p])[1..] == pieces[1..] + [p];
      JoinSnoc(d, pieces[1..], p);
    }
  }

  /** `ring_str_replace`: rewrites one buffer, resuming after each insertion;
      what is inserted is never scanned. */
  method Replace(s: Bytes, source: Bytes, target: Bytes) returns (r: Bytes)
    ensures r == if source == [] then s else Replaced(s, source, target)
  {
    r := s;
    if |source| == 0 {
      return;
    }
    var pos := 0;
    var found := Find(r, source);
    ghost var done, rest := [], s;
    while found.Some?
      invariant r == done + rest && pos == |done| && found == Find(rest, source)
      invariant ReplacedSoFar(done, rest, source, target, s)
      decreases |rest|
    {
      r, pos := Splice(r, pos, found.value, |source|, target, done, rest);
      done, rest := ReplaceOnce(done, rest, source, target, s, found.value);
      found := Find(r[pos..], source);
    }
  }

  /** The buffer's finished part, and what the rest will become. */
  ghost predicate ReplacedSoFar(done: Bytes, rest: Bytes, source: Bytes, target: Bytes, s: Bytes) {
    done + Replaced(rest, source, target) == Replaced(s, source, target)
  }

  lemma ReplaceOnce(done: Bytes, rest: Bytes, source: Bytes, target: Bytes, s: Bytes, i: nat)
    returns (done': Bytes, rest': Bytes)
    requires source != [] && ReplacedSoFar(done, rest, source, target, s) && Find(rest, source) == Some(i)
    ensures i + |source| <= |rest|
    ensures done' == done + rest[..i] + target && rest' == Beyond(rest, i, source)
    ensures ReplacedSoFar(done', rest', source, target, s)
  {
    done', rest' := done + rest[..i] + target, Beyond(rest, i, source);
    ReplacedFirst(rest, source, target, i);
    Associative(done, rest[..i], target, Replaced(Beyond(rest, i, source), source, target));
  }

  lemma Associative(a: Bytes, b: Bytes, c: Bytes, d: Bytes)
    ensures a + (b + c + d) == (a + b + c) + d
  {
  }

  /** `result.replace(pos, fs.size(), ts)` and the cursor moving past it. */
  method Splice(r: Bytes, pos: nat, i: nat, n: nat, target: Bytes, ghost done: Bytes, ghost rest: Bytes)
    returns (r': Bytes, pos': nat)
    requires r == done + rest && pos == |done| && i + n <= |rest|
    ensures r' == (done + rest[..i] + target) + rest[i + n..] && pos' == |done + rest[..i] + target|
    ensures r'[pos'..] == rest[i + n..]
  {
    assert r[..pos + i] == done + rest[..i];
    assert r[pos + i + n..] == rest[i + n..];
    r' := r[..pos + i] + target + r[pos + i + n..];
    pos' := pos + i + |target|;
  }
}
