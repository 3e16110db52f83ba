/** Line-ending normalization and frame splitting, as the stream client applies them. */
module SseText {
  import opened Wrappers

  // replaceAll('\r\n', '\n')
  function Normalize(s: string): string {
    if s == "" then ""
    else if |s| >= 2 && s[0] == '\r' && s[1] == '\n' then "\n" + Normalize(s[2..])
    else [s[0]] + Normalize(s[1..])
  }

  predicate BreakAt(s: string, i: nat) {
    i + 1 < |s| && s[i] == '\n' && s[i + 1] == '\n'
  }

  // indexOf('\n\n')
  function FindBreak(s: string): (r: Option<nat>)
    ensures r.Some? ==> BreakAt(s, r.value) && forall j :: 0 <= j < r.value ==> !BreakAt(s, j)
    ensures r.None? ==> forall j: nat :: !BreakAt(s, j)
  {
    if |s| < 2 then None
    else if BreakAt(s, 0) then Some(0)
    else
      var rest := FindBreak(s[1..]);
      assert forall j: nat :: BreakAt(s[1..], j) <==> BreakAt(s, j + 1);
      assert forall j: nat :: BreakAt(s, j) ==> j > 0 && BreakAt(s[1..], j - 1);
      if rest.Some? then Some(rest.value + 1) else None
  }

  // The complete frames of a buffer and what is left in it.
  datatype Parts = Parts(frames: seq<string>, rest: string)

  function Split(s: string): Parts
    decreases |s|
  {
    var i := FindBreak(s);
    if i.None? then Parts([], s)
    else
      var tail := Split(s[i.value + 2..]);
      Parts([s[..i.value]] + tail.frames, tail.rest)
  }

  predicate CrLfAt(s: string, i: nat) {
    i + 1 < |s| && s[i] == '\r' && s[i + 1] == '\n'
  }

  ghost predicate NoCrLf(s: string) {
    forall i: nat :: !CrLfAt(s, i)
  }

  // Normalization applied twice differs from once exactly where CR CR LF occurs.
  ghost predicate Clean(s: string) {
    forall i: nat :: i + 2 < |s| ==> !(s[i] == '\r' && s[i + 1] == '\r' && s[i + 2] == '\n')
  }

  lemma {:induction false} NormalizeKeepsNormal(s: string)
    requires NoCrLf(s)
    ensures Normalize(s) == s
  {
    if s != "" {
      assert !CrLfAt(s, 0);
      assert forall i: nat :: CrLfAt(s[1..], i) ==> CrLfAt(s, i + 1);
      NormalizeKeepsNormal(s[1..]);
    }
  }

  // Normalization distributes over any cut that does not fall inside a CRLF.
  lemma {:induction false} NormalizeDistributes(x: string, y: string)
    requires x == "" || y == "" || !(x[|x| - 1] == '\r' && y[0] == '\n')
    ensures Normalize(x + y) == Normalize(x) + Normalize(y)
    decreases |x|
  {
    hide Normalize;
    NormalizeStep(x);
    NormalizeStep(x + y);
    if x == "" {
      assert x + y == y;
      assert "" + Normalize(y) == Normalize(y);
    } else {
      var n := if CrLfAt(x, 0) then 2 else 1;
      assert (x + y)[n..] == x[n..] + y;
      assert CrLfAt(x + y, 0) <==> CrLfAt(x, 0) by {
        assert |x| > 1 ==> (x + y)[1] == x[1];
        assert |x| == 1 && y != "" ==> (x + y)[1] == y[0];
      }
      NormalizeDistributes(x[n..], y);
      var first := if CrLfAt(x, 0) then "\n" else [x[0]];
      Associates(first, Normalize(x[n..]), Normalize(y));
    }
  }

  lemma Associates(a: string, b: string, c: string)
    ensures a + (b + c) == a + b + c
  {
  }

  // One character of output: a line feed for a CRLF, the character itself otherwise.
  lemma NormalizeStep(s: string)
    ensures Normalize(s) == if s == "" then ""
                            else if CrLfAt(s, 0) then "\n" + Normalize(s[2..])
                            else [s[0]] + Normalize(s[1..])
  {
  }

  lemma {:induction false} NormalizedHead(s: string)
    ensures Normalize(s) == "" <==> s == ""
    ensures s != "" ==> Normalize(s)[0] == if CrLfAt(s, 0) then '\n' else s[0]
  {
  }

  lemma CleanTail(s: string, n: nat)
    requires Clean(s) && n <= |s|
    ensures Clean(s[n..])
  {
    forall i: nat | i + 2 < |s[n..]|
      ensures !(s[n..][i] == '\r' && s[n..][i + 1] == '\r' && s[n..][i + 2] == '\n')
    {
      assert s[n..][i] == s[n + i] && s[n..][i + 1] == s[n + i + 1] && s[n..][i + 2] == s[n + i + 2];
    }
  }

  // Without CR CR LF one pass removes every CRLF.
  lemma {:induction false} NormalizeIsComplete(s: string)
    requires Clean(s)
    ensures NoCrLf(Normalize(s))
    decreases |s|
  {
    if s != "" {
      var n := if CrLfAt(s, 0) then 2 else 1;
      CleanTail(s, n);
      NormalizeIsComplete(s[n..]);
      NormalizedHead(s[n..]);
      var out := Normalize(s);
      assert out[1..] == Normalize(s[n..]);
      forall i: nat ensures !CrLfAt(out, i) {
        if i > 0 { assert !CrLfAt(out[1..], i - 1); }
      }
    }
  }

  // Renormalizing a normalized buffer with more input is normalizing the whole.
  lemma {:induction false} NormalizeAbsorbs(x: string, y: string)
    requires Clean(x)
    ensures Normalize(Normalize(x) + y) == Normalize(x + y)
    decreases |x|
  {
    hide Normalize, Clean;
    NormalizeStep(x);
    NormalizeStep(x + y);
    if x == "" {
      assert "" + y == y;
    } else if x == "\r" {
      LoneCr();
    } else {
      var n := if CrLfAt(x, 0) then 2 else 1;
      CleanTail(x, n);
      NormalizeAbsorbs(x[n..], y);
      assert (x + y)[n..] == x[n..] + y;
      var first := if CrLfAt(x, 0) then "\n" else [x[0]];
      var once := Normalize(x) + y;
      NoCrLfAfterFirst(x, y, n);
      NormalizeStep(once);
      assert once[0] == first[0] && once[1..] == Normalize(x[n..]) + y;
      assert |x| == 1 ==> x == [x[0]] && x[0] != '\r';
      assert CrLfAt(x + y, 0) <==> CrLfAt(x, 0);
    }
  }

  lemma LoneCr()
    ensures Normalize("\r") == "\r"
  {
  }

  // The normalized head of a clean text starts no CRLF with what follows.
  lemma NoCrLfAfterFirst(x: string, y: string, n: nat)
    requires Clean(x) && x != "" && x != "\r" && n == if CrLfAt(x, 0) then 2 else 1
    ensures !CrLfAt(Normalize(x) + y, 0)
  {
    hide Normalize;
    NormalizeStep(x);
    NormalizedHead(x[n..]);
    assert |x| == 1 ==> x == [x[0]] && x[0] != '\r';
    if n == 1 && x[0] == '\r' {
      var tail := Normalize(x[1..]);
      assert tail != "" && (Normalize(x) + y)[1] == tail[0];
      assert !CrLfAt(x[1..], 0) by {
        assert |x| > 2 ==> !(x[0] == '\r' && x[1] == '\r' && x[2] == '\n');
      }
    }
  }

  // The first break depends only on the text up to its end.
  lemma FirstBreakIsLocal(s: string, t: string, i: nat)
    requires FindBreak(s) == Some(i) && |t| >= i + 2 && t[..i + 2] == s[..i + 2]
    ensures FindBreak(t) == Some(i)
  {
    assert forall k :: 0 <= k < i + 2 ==> t[k] == t[..i + 2][k] == s[..i + 2][k] == s[k];
    assert forall j: nat :: j <= i ==> (BreakAt(t, j) <==> BreakAt(s, j));
  }

  lemma SplitAt(s: string, i: nat)
    requires FindBreak(s) == Some(i)
    ensures BreakAt(s, i)
    ensures Split(s) == Parts([s[..i]] + Split(s[i + 2..]).frames, Split(s[i + 2..]).rest)
    ensures Consumed(s) == s[..i + 2] + Consumed(s[i + 2..])
  {
  }

  lemma SplitWhole(s: string)
    requires FindBreak(s) == None
    ensures Split(s) == Parts([], s) && Consumed(s) == ""
  {
  }

  lemma NothingToSplit()
    ensures Split("") == Parts([], "")
  {
  }

  // A break found in a prefix splits the whole text the same way.
  lemma {:induction false} SplitExtends(a: string, y: string)
    ensures Split(a + y) == Parts(Split(a).frames + Split(Split(a).rest + y).frames, Split(Split(a).rest + y).rest)
    decreases |a|
  {
    hide Split, FindBreak;
    var found := FindBreak(a);
    if found.Some? {
      var i := found.value;
      SplitAt(a, i);
      FirstBreakIsLocal(a, a + y, i);
      SplitAt(a + y, i);
      assert (a + y)[..i] == a[..i];
      assert (a + y)[i + 2..] == a[i + 2..] + y;
      SplitExtends(a[i + 2..], y);
    } else {
      SplitWhole(a);
      assert [] + Split(a + y).frames == Split(a + y).frames;
    }
  }

  // What splitting has taken out of a buffer, frames and breaks together.
  function Consumed(s: string): string
    decreases |s|
  {
    var i := FindBreak(s);
    if i.None? then "" else s[..i.value + 2] + Consumed(s[i.value + 2..])
  }

  // The rest is a suffix without breaks; what precedes it splits into the same frames and ends
  // a line.
  lemma {:induction false} SplitConsumes(s: string)
    ensures s == Consumed(s) + Split(s).rest
    ensures Split(Consumed(s)) == Parts(Split(s).frames, "")
    ensures Consumed(s) == "" || BreakAt(Consumed(s), |Consumed(s)| - 2)
    ensures FindBreak(Split(s).rest) == None
    decreases |s|
  {
    hide Split, Consumed, FindBreak;
    var found := FindBreak(s);
    if found.Some? {
      var i := found.value;
      SplitAt(s, i);
      var tail := s[i + 2..];
      SplitConsumes(tail);
      assert Consumed(s)[..i + 2] == s[..i + 2];
      FirstBreakIsLocal(s, Consumed(s), i);
      SplitAt(Consumed(s), i);
      assert s == s[..i + 2] + tail;
      assert Consumed(s)[..i] == s[..i];
      assert Consumed(s)[i + 2..] == Consumed(tail);
    } else {
      SplitWhole(s);
      NothingToSplit();
    }
  }

  lemma CleanHead(s: string, n: nat)
    requires Clean(s) && n <= |s|
    ensures Clean(s[..n])
  {
    forall i: nat | i + 2 < n
      ensures !(s[..n][i] == '\r' && s[..n][i + 1] == '\r' && s[..n][i + 2] == '\n')
    {
      assert s[..n][i] == s[i] && s[..n][i + 1] == s[i + 1] && s[..n][i + 2] == s[i + 2];
    }
  }

  lemma NoCrLfPart(s: string, lo: nat, hi: nat)
    requires NoCrLf(s) && lo <= hi <= |s|
    ensures NoCrLf(s[lo..hi])
  {
    forall i: nat ensures !CrLfAt(s[lo..hi], i) {
      assert !CrLfAt(s, lo + i);
    }
  }

  // The consumed part of a normalized buffer is never looked at again.
  lemma NormalizeAfterConsumed(normal: string, chunk: string)
    requires NoCrLf(normal)
    ensures Normalize(normal + chunk) == Consumed(normal) + Normalize(Split(normal).rest + chunk)
  {
    hide Normalize, Split, NoCrLf, Consumed;
    SplitConsumes(normal);
    var done, rest := Consumed(normal), Split(normal).rest;
    NoCrLfPart(normal, 0, |done|);
    assert normal[0..|done|] == done;
    NormalizeKeepsNormal(done);
    NormalizeDistributes(done, rest + chunk);
    assert normal + chunk == done + (rest + chunk);
  }

  // One more chunk: splitting the renormalized rest continues the split of the whole stream.
  lemma ChunkContinuesSplit(seen: string, chunk: string)
    requires Clean(seen + chunk)
    ensures var before, step := Split(Normalize(seen)), Split(Normalize(Split(Normalize(seen)).rest + chunk));
            Split(Normalize(seen + chunk)) == Parts(before.frames + step.frames, step.rest)
  {
    hide Normalize, Split, NoCrLf, Clean;
    CleanHead(seen + chunk, |seen|);
    assert (seen + chunk)[..|seen|] == seen;
    NormalizeIsComplete(seen);
    NormalizeAfterConsumed(Normalize(seen), chunk);
    NormalizeAbsorbs(seen, chunk);
    var normal := Normalize(seen);
    SplitConsumes(normal);
    SplitExtends(Consumed(normal), Normalize(Split(normal).rest + chunk));
    assert "" + Normalize(Split(normal).rest + chunk) == Normalize(Split(normal).rest + chunk);
  }

  // What is left over carries no CRLF, so the last flush normalizes nothing.
  lemma RestIsNormal(seen: string)
    requires Clean(seen)
    ensures Normalize(Split(Normalize(seen)).rest) == Split(Normalize(seen)).rest
  {
    var normal := Normalize(seen);
    NormalizeIsComplete(seen);
    SplitConsumes(normal);
    NoCrLfPart(normal, |Consumed(normal)|, |normal|);
    assert normal[|Consumed(normal)|..|normal|] == Split(normal).rest;
    NormalizeKeepsNormal(Split(normal).rest);
  }

  /* ---------- any chunking of a stream ---------- */

  function Concat(chunks: seq<string>): string {
    if chunks == [] then "" else Concat(chunks[..|chunks| - 1]) + chunks[|chunks| - 1]
  }

  // The frames handed out and the buffer kept after pushing the chunks one by one.
  function Feed(chunks: seq<string>): Parts {
    if chunks == [] then Parts([], "")
    else
      var before := Feed(chunks[..|chunks| - 1]);
      var step := Split(Normalize(before.rest + chunks[|chunks| - 1]));
      Parts(before.frames + step.frames, step.rest)
  }

  lemma {:induction false} CleanStreamFeedsAlike(chunks: seq<string>)
    requires Clean(Concat(chunks))
    ensures Feed(chunks) == Split(Normalize(Concat(chunks)))
  {
    if chunks != [] {
      var seen, chunk := Concat(chunks[..|chunks| - 1]), chunks[|chunks| - 1];
      CleanHead(seen + chunk, |seen|);
      assert (seen + chunk)[..|seen|] == seen;
      CleanStreamFeedsAlike(chunks[..|chunks| - 1]);
      ChunkContinuesSplit(seen, chunk);
    } else {
      NothingToSplit();
    }
  }

  lemma {:induction false} NormalizeShrinks(s: string)
    ensures |Normalize(s)| <= |s|
  {
    if s != "" {
      NormalizeShrinks(s[if CrLfAt(s, 0) then 2 else 1..]);
    }
  }

  predicate EndsInCrLf(s: string) {
    |s| >= 2 && CrLfAt(s, |s| - 2)
  }

  lemma TrailingCrLfShrinks(s: string)
    requires EndsInCrLf(s)
    ensures |Normalize(s)| < |s|
  {
    var head := s[..|s| - 2];
    assert s == head + "\r\n";
    NormalizeDistributes(head, "\r\n");
    NormalizeShrinks(head);
    assert Normalize("\r\n") == "\n" + Normalize("");
  }

  // A text is recovered from its parts.
  function Join(p: Parts): string
    decreases |p.frames|
  {
    if p.frames == [] then p.rest else p.frames[0] + "\n\n" + Join(Parts(p.frames[1..], p.rest))
  }

  lemma {:induction false} JoinUndoesSplit(s: string)
    ensures Join(Split(s)) == s
    decreases |s|
  {
    hide Split, FindBreak;
    var found := FindBreak(s);
    if found.None? {
      SplitWhole(s);
    } else {
      SplitAt(s, found.value);
      JoinUndoesSplit(s[found.value + 2..]);
      assert s == s[..found.value] + "\n\n" + s[found.value + 2..];
      assert Split(s).frames[1..] == Split(s[found.value + 2..]).frames;
    }
  }

  lemma {:induction false} JoinAppends(frames: seq<string>, p: Parts)
    ensures Join(Parts(frames + p.frames, p.rest)) == Join(Parts(frames, "")) + Join(p)
    decreases |frames|
  {
    if frames == [] {
      assert frames + p.frames == p.frames;
    } else {
      JoinAppends(frames[1..], p);
      assert (frames + p.frames)[0] == frames[0];
      assert (frames + p.frames)[1..] == frames[1..] + p.frames;
      assert Join(Parts(frames + p.frames, p.rest))
          == frames[0] + "\n\n" + (Join(Parts(frames[1..], "")) + Join(p));
    }
  }

  lemma NormalizeCrCrLf(head: string)
    ensures Normalize(head + "\r\r\n") == Normalize(head) + "\r\n"
  {
    NormalizeDistributes(head, "\r\r\n");
    var tail := "\r\r\n";
    assert tail[1..] == "\r\n" && tail[1..][2..] == "";
  }

  // A CRLF at the end of a buffer is never part of a break.
  lemma CrLfStaysBuffered(normal: string)
    requires EndsInCrLf(normal)
    ensures EndsInCrLf(Split(normal).rest)
  {
    hide Split, Consumed;
    SplitConsumes(normal);
    var done, rest := Consumed(normal), Split(normal).rest;
    assert forall k :: 0 <= k < |done| ==> done[k] == normal[k];
    assert |rest| >= 2;
    assert rest[|rest| - 1] == normal[|normal| - 1] && rest[|rest| - 2] == normal[|normal| - 2];
  }

  // Cutting right after CR CR LF makes the two-chunk result shorter than the one-push result.
  lemma CutAfterCrCrLf(head: string, tail: string)
    ensures Feed([head + "\r\r\n", tail]) != Split(Normalize(head + "\r\r\n" + tail))
  {
    hide Normalize, Split, Consumed, Join, Feed;
    var first := head + "\r\r\n";
    var normal := Normalize(first);
    var rest := Split(normal).rest;
    NormalizeCrCrLf(head);
    CrLfStaysBuffered(normal);
    TrailingCrLfShrinks(rest);
    NormalizeDistributes(rest, tail);
    NormalizeDistributes(first, tail);
    TwoChunks(first, tail);
    SplitConsumes(normal);
    var step := Split(Normalize(rest + tail));
    JoinUndoesSplit(Normalize(rest + tail));
    JoinUndoesSplit(Normalize(first + tail));
    JoinAppends(Split(normal).frames, step);
    JoinUndoesSplit(Consumed(normal));
    assert |Join(Feed([first, tail]))| < |Normalize(first + tail)|;
  }

  lemma TwoChunks(a: string, b: string)
    ensures Concat([a, b]) == a + b
    ensures var before, step := Split(Normalize(a)), Split(Normalize(Split(Normalize(a)).rest + b));
            Feed([a, b]) == Parts(before.frames + step.frames, step.rest)
  {
    hide Normalize, FindBreak, Split;
    assert [a, b][..1] == [a] && [a][..0] == [];
    assert "" + a == a;
    assert Feed([a]) == Parts([] + Split(Normalize(a)).frames, Split(Normalize(a)).rest);
    assert Concat([a]) == a;
  }

  // The frames and the buffer are independent of the chunking exactly when the stream contains
  // no CR CR LF.
  lemma ChunkingIsInvisibleExactlyWithoutCrCrLf(s: string)
    ensures (forall chunks :: Concat(chunks) == s ==> Feed(chunks) == Split(Normalize(s))) <==> Clean(s)
  {
    hide Normalize, FindBreak, Split, Feed;
    if Clean(s) {
      forall chunks | Concat(chunks) == s ensures Feed(chunks) == Split(Normalize(s)) {
        CleanStreamFeedsAlike(chunks);
      }
    } else {
      var i: nat :| i + 2 < |s| && s[i] == '\r' && s[i + 1] == '\r' && s[i + 2] == '\n';
      var head, tail := s[..i], s[i + 3..];
      assert s == head + "\r\r\n" + tail;
      CutAfterCrCrLf(head, tail);
      TwoChunks(head + "\r\r\n", tail);
      assert Concat([head + "\r\r\n", tail]) == s;
    }
  }
}
