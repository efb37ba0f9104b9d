/** The remove_dot_segments routine of section 5.2.4 of RFC 3986, and how the server differs from it. */
module DotSegments {
  import opened Bytes
  import opened Segments

  predicate StartsWith(s: bytes, t: bytes) {
    |t| <= |s| && s[..|t|] == t
  }

  /** Takes the last segment and its slash, if any, off the output buffer. */
  function DropLast(out: bytes): bytes {
    var i := LastIndexByte(out, SLASH);
    if i < 0 then [] else out[..i]
  }

  /** The length of the first segment of the input buffer, with the slash it may start with. */
  function FirstSegment(inp: bytes): (n: nat)
    requires inp != []
    ensures 1 <= n <= |inp|
  {
    var i := IndexByte(inp[1..], SLASH);
    if i < 0 then |inp| else i + 1
  }

  /** The steps of the routine that can apply to an input buffer. */
  datatype Step = ParentPrefix | HerePrefix | Here | FinalHere | Parent | FinalParent | Alone | Segment

  function NextStep(inp: bytes): Step {
    if StartsWith(inp, [DOT, DOT, SLASH]) then ParentPrefix
    else if StartsWith(inp, [DOT, SLASH]) then HerePrefix
    else if StartsWith(inp, SLASHDOTSLASH) then Here
    else if inp == SLASHDOT then FinalHere
    else if StartsWith(inp, SLASHDOTDOTSLASH) then Parent
    else if inp == SLASHDOTDOT then FinalParent
    else if inp == DOTSEG || inp == DOTDOTSEG then Alone
    else Segment
  }

  /** Steps 2A to 2E of the routine: the input buffer shrinks while the output buffer is edited. */
  function RemoveDotSegments(inp: bytes, out: bytes): bytes
    decreases |inp|
  {
    if inp == [] then out
    else match NextStep(inp)
      case ParentPrefix => RemoveDotSegments(inp[3..], out)
      case HerePrefix => RemoveDotSegments(inp[2..], out)
      case Here => RemoveDotSegments(inp[2..], out)
      case FinalHere => RemoveDotSegments([SLASH], out)
      case Parent => RemoveDotSegments(inp[3..], DropLast(out))
      case FinalParent => RemoveDotSegments([SLASH], DropLast(out))
      case Alone => out
      case Segment =>
        var n := FirstSegment(inp);
        RemoveDotSegments(inp[n..], out + inp[..n])
  }

  /** The output buffer that holds a stack of segments. */
  function Written(stack: segments): bytes {
    if stack == [] then [] else Written(stack[..|stack| - 1]) + ([SLASH] + stack[|stack| - 1])
  }

  lemma DropWritten(stack: segments)
    requires SlashFree(stack)
    ensures DropLast(Written(stack)) == Written(Pop(stack))
  {
    if stack != [] {
      var w, seg := Written(Pop(stack)), stack[|stack| - 1];
      assert Written(stack) == w + [SLASH] + seg;
      LastIndexByteConcat(w, SLASH, seg);
      assert Written(stack)[..|w|] == w;
    }
  }

  lemma {:induction false} WrittenJoin(stack: segments, last: bytes)
    ensures Written(stack) + [SLASH] + last == PathOf(stack, last)
  {
    var root: segments := [[]];
    if stack == [] {
      JoinConcat(root, [last]);
      assert root + stack + [last] == root + [last];
    } else {
      var front, seg := stack[..|stack| - 1], stack[|stack| - 1];
      WrittenJoin(front, seg);
      JoinConcat(root + front + [seg], [last]);
      assert root + front + [seg] == root + stack;
      assert Written(stack) == Written(front) + [SLASH] + seg;
    }
  }

  /** The routine's reading of the last segment: "." and ".." both leave a slash. */
  function FinishRfc(stack: segments, last: bytes): bytes {
    if last == DOTSEG then PathOf(stack, []) else Finish(stack, last)
  }

  lemma RemoveSlash(out: bytes)
    ensures RemoveDotSegments([SLASH], out) == out + [SLASH]
  {
    assert [SLASH][1..] == [] && FirstSegment([SLASH]) == 1;
    assert NextStep([SLASH]) == Segment;
  }

  /** Steps 2A and 2D never apply to a rooted input. */
  lemma RootedRule(inp: bytes)
    requires Rooted(inp)
    ensures NextStep(inp) !in {ParentPrefix, HerePrefix, Alone}
  {
    assert |inp| >= 2 ==> inp[..2][0] == SLASH;
    assert |inp| >= 3 ==> inp[..3][0] == SLASH;
  }

  /** The step that applies to a final segment. */
  lemma FinalRule(last: bytes)
    requires SLASH !in last
    ensures NextStep([SLASH] + last)
         == if last == DOTSEG then FinalHere else if last == DOTDOTSEG then FinalParent else Segment
    ensures FirstSegment([SLASH] + last) == 1 + |last|
  {
    var inp := [SLASH] + last;
    assert inp[1..] == last;
    assert forall k :: 1 <= k < |inp| ==> inp[k] != SLASH;
    assert |inp| >= 3 ==> inp[..3][2] == inp[2];
    assert |inp| >= 4 ==> inp[..4][3] == inp[3];
    assert SLASHDOT[1..] == DOTSEG && SLASHDOTDOT[1..] == DOTDOTSEG;
    RootedRule(inp);
  }

  lemma RemoveAtEnd(stack: segments, last: bytes)
    requires SlashFree(stack) && SLASH !in last
    ensures RemoveDotSegments([SLASH] + last, Written(stack)) == FinishRfc(stack, last)
  {
    FinalRule(last);
    if last == DOTSEG {
      RemoveSlash(Written(stack));
      WrittenJoin(stack, []);
      assert Written(stack) + [SLASH] + [] == Written(stack) + [SLASH];
    } else if last == DOTDOTSEG {
      DropWritten(stack);
      RemoveSlash(Written(Pop(stack)));
      WrittenJoin(Pop(stack), []);
      assert Written(Pop(stack)) + [SLASH] + [] == Written(Pop(stack)) + [SLASH];
    } else {
      var inp := [SLASH] + last;
      WrittenJoin(stack, last);
      Regroup(Written(stack), [SLASH], last);
      assert inp[|inp|..] == [] && inp[..|inp|] == inp;
    }
  }

  /** The step that applies to an inner segment. */
  lemma InnerRule(seg: bytes, rest: bytes)
    requires SLASH !in seg && seg != []
    ensures NextStep([SLASH] + seg + [SLASH] + rest)
         == if seg == DOTSEG then Here else if seg == DOTDOTSEG then Parent else Segment
    ensures FirstSegment([SLASH] + seg + [SLASH] + rest) == 1 + |seg|
  {
    var inp := [SLASH] + seg + [SLASH] + rest;
    assert inp[1..] == seg + [SLASH] + rest;
    IndexByteConcat(seg, SLASH, rest);
    PrefixSegment(seg, rest, DOTSEG);
    PrefixSegment(seg, rest, DOTDOTSEG);
    assert inp[|seg| + 1] == SLASH;
    assert [SLASH] + DOTSEG + [SLASH] == SLASHDOTSLASH && [SLASH] + DOTDOTSEG + [SLASH] == SLASHDOTDOTSLASH;
    RootedRule(inp);
  }

  lemma PrefixSegment(seg: bytes, rest: bytes, x: bytes)
    requires SLASH !in seg && SLASH !in x
    ensures StartsWith([SLASH] + seg + [SLASH] + rest, [SLASH] + x + [SLASH]) <==> seg == x
  {
    var inp, pre := [SLASH] + seg + [SLASH] + rest, [SLASH] + x + [SLASH];
    if StartsWith(inp, pre) {
      assert inp == pre + inp[|pre|..];
      assert seg + [SLASH] + rest == inp[1..];
      assert x + [SLASH] + inp[|pre|..] == (pre + inp[|pre|..])[1..];
      CutAtByte(seg, SLASH, rest, x, inp[|pre|..]);
    }
  }

  /** One inner segment of the input, with the slash before it. */
  lemma RemoveSegment(seg: bytes, rest: bytes, out: bytes)
    requires SLASH !in seg && seg != []
    ensures RemoveDotSegments([SLASH] + seg + [SLASH] + rest, out)
         == RemoveDotSegments([SLASH] + rest,
                              if seg == DOTSEG then out
                              else if seg == DOTDOTSEG then DropLast(out)
                              else out + ([SLASH] + seg))
  {
    var inp := [SLASH] + seg + [SLASH] + rest;
    InnerRule(seg, rest);
    assert inp[..|seg| + 1] == [SLASH] + seg && inp[|seg| + 1..] == [SLASH] + rest;
  }

  lemma RemoveInner(stack: segments, seg: bytes, rest: bytes)
    requires SlashFree(stack) && SLASH !in seg && seg != []
    ensures RemoveDotSegments([SLASH] + seg + [SLASH] + rest, Written(stack))
         == RemoveDotSegments([SLASH] + rest, Written(Push(stack, seg)))
  {
    RemoveSegment(seg, rest, Written(stack));
    DropWritten(stack);
    assert Ordinary(seg) ==> Push(stack, seg)[..|stack|] == stack;
  }

  lemma {:induction false} RemoveRun(stack: segments, inner: segments, last: bytes)
    requires SlashFree(stack) && SlashFree(inner) && SLASH !in last
    requires forall i :: 0 <= i < |inner| ==> inner[i] != []
    ensures RemoveDotSegments([SLASH] + Join(inner + [last]), Written(stack)) == FinishRfc(Run(stack, inner), last)
    decreases |inner|
  {
    if inner == [] {
      assert inner + [last] == [last];
      RemoveAtEnd(stack, last);
    } else {
      var rest := Join(inner[1..] + [last]);
      assert (inner + [last])[1..] == inner[1..] + [last];
      assert [SLASH] + Join(inner + [last]) == [SLASH] + inner[0] + [SLASH] + rest;
      RemoveInner(stack, inner[0], rest);
      RemoveRun(Push(stack, inner[0]), inner[1..], last);
    }
  }

  lemma EmptyInner(segs: segments, i: int)
    requires 0 < i < |segs| - 1
    ensures segs[i] == [] ==> Occurs(Join(segs), SLASHSLASH)
  {
    InnerOccurs(segs, i);
    assert segs[i] == [] ==> [SLASH] + segs[i] + [SLASH] == SLASHSLASH;
  }

  /** The segments of such a path behind the first slash. */
  lemma BehindRoot(p: bytes)
    requires Rooted(p) && !Occurs(p, SLASHSLASH)
    ensures var segs := Split(p);
      && |segs| >= 2 && SlashFree(Inner(segs)) && SLASH !in Last(segs)
      && p == [SLASH] + Join(Inner(segs) + [Last(segs)])
      && forall i :: 0 <= i < |Inner(segs)| ==> Inner(segs)[i] != []
  {
    hide Split, Occurs;
    RootedSegments(p);
    JoinSplit(p);
    var segs := Split(p);
    var root: segments := [[]];
    forall i | 0 <= i < |Inner(segs)| ensures Inner(segs)[i] != [] {
      EmptyInner(segs, i + 1);
    }
    JoinConcat(root, Inner(segs) + [Last(segs)]);
    assert root + (Inner(segs) + [Last(segs)]) == segs;
    assert forall i :: 0 <= i < |Inner(segs)| ==> Inner(segs)[i] == segs[i + 1];
  }

  lemma FinishVersusRfc(stack: segments, last: bytes)
    ensures Finish(stack, last) == FinishRfc(stack, last) + if last == DOTSEG then [DOT] else []
  {
    WrittenJoin(stack, DOTSEG);
    WrittenJoin(stack, []);
    assert Written(stack) + [SLASH] + DOTSEG == (Written(stack) + [SLASH] + []) + [DOT];
  }

  /** On a rooted path without repeated slashes the two differ in one case only: a final "/." */
  lemma ResolveVersusRfc(p: bytes)
    requires Rooted(p) && !Occurs(p, SLASHSLASH)
    ensures if EndsWith(p, SLASHDOT)
            then Resolve(p) == RemoveDotSegments(p, []) + [DOT]
            else Resolve(p) == RemoveDotSegments(p, [])
  {
    hide Split, Occurs, Run, Join, Inner, Last, Finish, FinishRfc, RemoveDotSegments;
    BehindRoot(p);
    var segs := Split(p);
    RemoveRun([], Inner(segs), Last(segs));
    FinishVersusRfc(Run([], Inner(segs)), Last(segs));
    LastSegment(p, DOTSEG);
    assert [SLASH] + DOTSEG == SLASHDOT;
  }

  /** So on such paths normalizing is remove_dot_segments exactly when there is no final "/.". */
  lemma ResolveIsRfc(p: bytes)
    requires Rooted(p) && !Occurs(p, SLASHSLASH)
    ensures Resolve(p) == RemoveDotSegments(p, []) <==> !EndsWith(p, SLASHDOT)
  {
    ResolveVersusRfc(p);
  }
}
