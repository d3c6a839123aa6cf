/** The raised-finger rule of the hand tracker: a fixed table of four fingers,
    each a (base landmark, tip landmark, name) triple, and a loop that reports
    a finger as raised when its tip lies strictly above its base in the image
    (image y grows downward, so "above" is "smaller y"). */
module HandTracker {
  import opened Sequences

  /** One detected hand joint in normalised image coordinates. Only `y` takes
      part in the rule; `x` is used by the source for drawing alone. */
  datatype Landmark = Landmark(x: real, y: real)

  /** A table entry: the landmark index of the finger's base (MCP joint), the
      landmark index of its tip, and the name reported for it. */
  datatype Finger = Finger(base: nat, tip: nat, name: string)

  const IndexFinger: Finger := Finger(5, 8, "index")
  const MiddleFinger: Finger := Finger(9, 12, "middle")
  const RingFinger: Finger := Finger(13, 16, "ring")
  const PinkyFinger: Finger := Finger(17, 20, "pinky")

  /** The table walked by the selection loop, in reporting order. */
  const Fingers: seq<Finger> := [IndexFinger, MiddleFinger, RingFinger, PinkyFinger]

  /** The only landmark indices whose data can influence the result. */
  const ReadIndices: set<nat> := {5, 8, 9, 12, 13, 16, 17, 20}

  /** The names of a table, in table order. */
  function Names(t: seq<Finger>): (r: seq<string>)
    ensures |r| == |t|
    ensures forall k :: 0 <= k < |t| ==> r[k] == t[k].name
    decreases |t|
  {
    if t == [] then [] else Names(t[..|t| - 1]) + [t[|t| - 1].name]
  }

  ghost predicate BasesBelowTips(t: seq<Finger>)
  {
    forall k :: 0 <= k < |t| ==> t[k].base < t[k].tip
  }

  /** The shape of the table the rule relies on: each finger spans four
      consecutive landmarks (tip = base + 3), the spans are disjoint and
      increasing in table order, and no name occurs twice. */
  ghost predicate WellFormedTable(t: seq<Finger>)
  {
    && BasesBelowTips(t)
    && (forall k :: 0 <= k < |t| ==> t[k].tip == t[k].base + 3)
    && (forall j, k :: 0 <= j < k < |t| ==> t[j].tip < t[k].base)
    && Distinct(Names(t))
  }

  /** The guard that makes reading `landmarks[f.tip]` (and so `landmarks[f.base]`)
      safe: the finger is evaluated only when its tip is present. */
  predicate Evaluated(f: Finger, landmarks: seq<Landmark>)
  {
    f.tip < |landmarks|
  }

  /** The finger is evaluated and its tip lies strictly above its base. */
  predicate Chosen(f: Finger, landmarks: seq<Landmark>)
    requires f.base < f.tip
  {
    Evaluated(f, landmarks) && landmarks[f.tip].y < landmarks[f.base].y
  }

  /** Reference definition of the selection: the names of the chosen entries of
      `t`, in table order. It grows from the back, as the source's list does. */
  function Select(t: seq<Finger>, landmarks: seq<Landmark>): seq<string>
    requires BasesBelowTips(t)
    decreases |t|
  {
    if t == [] then []
    else
      var f := t[|t| - 1];
      Select(t[..|t| - 1], landmarks) + (if Chosen(f, landmarks) then [f.name] else [])
  }

  /** The table as declared satisfies every shape invariant; its spans run from
      landmark 5 to landmark 20 and cover exactly `ReadIndices`. */
  lemma FingersWellFormed()
    ensures WellFormedTable(Fingers)
    ensures Fingers[0].base == 5 && Fingers[|Fingers| - 1].tip == 20
    ensures Names(Fingers) == ["index", "middle", "ring", "pinky"]
    ensures ReadIndices == (set k | 0 <= k < |Fingers| :: Fingers[k].base)
                           + (set k | 0 <= k < |Fingers| :: Fingers[k].tip)
  {
    var one, two, three := [IndexFinger], [IndexFinger, MiddleFinger], [IndexFinger, MiddleFinger, RingFinger];
    assert one[..0] == [] && two[..1] == one && three[..2] == two && Fingers[..3] == three;
    assert Names(one) == ["index"];
    assert Names(two) == ["index", "middle"];
    assert Names(three) == ["index", "middle", "ring"];
    var names := ["index", "middle", "ring", "pinky"];
    assert Names(Fingers) == names;
    assert Distinct(names) by {
      assert names[0][0] == 'i' && names[1][0] == 'm' && names[2][0] == 'r' && names[3][0] == 'p';
    }
    assert forall k :: 0 <= k < |Fingers| ==> Fingers[k].tip == Fingers[k].base + 3;
    assert forall j, k :: 0 <= j < k < |Fingers| ==> Fingers[j].tip < Fingers[k].base;
    TableIndices();
  }

  lemma TableIndices()
    ensures ReadIndices == (set k | 0 <= k < |Fingers| :: Fingers[k].base)
                           + (set k | 0 <= k < |Fingers| :: Fingers[k].tip)
  {
    var bases := set k | 0 <= k < |Fingers| :: Fingers[k].base;
    var tips := set k | 0 <= k < |Fingers| :: Fingers[k].tip;
    assert bases == {5, 9, 13, 17} by {
      assert Fingers[0].base in bases && Fingers[1].base in bases;
      assert Fingers[2].base in bases && Fingers[3].base in bases;
    }
    assert tips == {8, 12, 16, 20} by {
      assert Fingers[0].tip in tips && Fingers[1].tip in tips;
      assert Fingers[2].tip in tips && Fingers[3].tip in tips;
    }
  }

  // ---------------------------------------------------------------------------
  // The selection loop (corrected guard)
  // ---------------------------------------------------------------------------

  /** `get_raised_fingers` with its guard corrected to skip a finger whose tip
      index is not below the landmark count; the drawing calls are not modelled. */
  method GetRaisedFingers(landmarks: seq<Landmark>) returns (raised: seq<string>)
    ensures raised == Select(Fingers, landmarks)
    ensures Subsequence(raised, ["index", "middle", "ring", "pinky"])
    ensures Distinct(raised) && |raised| <= 4
  {
    FingersWellFormed();
    raised := [];
    for i := 0 to |Fingers|
      invariant raised == Select(Fingers[..i], landmarks)
    {
      assert Fingers[..i + 1][..i] == Fingers[..i];
      var finger := Fingers[i];
      if |landmarks| <= finger.tip {
        continue;
      }
      var base := landmarks[finger.base];
      var tip := landmarks[finger.tip];
      if tip.y < base.y {
        raised := raised + [finger.name];
      }
    }
    assert Fingers[..|Fingers|] == Fingers;
    RaisedIsOrderedSubList(landmarks);
  }

  // ---------------------------------------------------------------------------
  // Properties of the selection over any table
  // ---------------------------------------------------------------------------

  /** The selection keeps table order and only drops names. */
  lemma {:induction false} SelectIsSubsequence(t: seq<Finger>, landmarks: seq<Landmark>)
    requires BasesBelowTips(t)
    ensures Subsequence(Select(t, landmarks), Names(t))
    decreases |t|
  {
    if t != [] {
      var p, f := t[..|t| - 1], t[|t| - 1];
      assert Names(t) == Names(p) + [f.name];
      SelectIsSubsequence(p, landmarks);
      if Chosen(f, landmarks) {
        KeepLast(Select(p, landmarks), Names(p), f.name);
      } else {
        assert Select(t, landmarks) == Select(p, landmarks);
        DropLast(Select(p, landmarks), Names(p), f.name);
      }
    }
  }

  /** A name is selected exactly when some entry carrying it is chosen. */
  lemma {:induction false} SelectMembers(t: seq<Finger>, landmarks: seq<Landmark>, x: string)
    requires BasesBelowTips(t)
    ensures x in Select(t, landmarks) <==>
            exists k :: 0 <= k < |t| && t[k].name == x && Chosen(t[k], landmarks)
    decreases |t|
  {
    if t != [] {
      var p, f := t[..|t| - 1], t[|t| - 1];
      SelectMembers(p, landmarks, x);
      if x in Select(t, landmarks) && x !in Select(p, landmarks) {
        assert t[|t| - 1].name == x && Chosen(t[|t| - 1], landmarks);
      }
      if exists k :: 0 <= k < |t| && t[k].name == x && Chosen(t[k], landmarks) {
        var k :| 0 <= k < |t| && t[k].name == x && Chosen(t[k], landmarks);
        if k < |p| {
          assert p[k] == t[k];
        }
      }
    }
  }

  /** Two hands on which every entry is chosen alike give the same selection. */
  lemma {:induction false} SelectAgree(t: seq<Finger>, landmarks: seq<Landmark>, other: seq<Landmark>)
    requires BasesBelowTips(t)
    requires forall k :: 0 <= k < |t| ==> (Chosen(t[k], landmarks) <==> Chosen(t[k], other))
    ensures Select(t, landmarks) == Select(t, other)
    decreases |t|
  {
    if t != [] {
      var p := t[..|t| - 1];
      assert forall k :: 0 <= k < |p| ==> p[k] == t[k];
      SelectAgree(p, landmarks, other);
    }
  }

  // ---------------------------------------------------------------------------
  // Properties of the selection over the finger table
  // ---------------------------------------------------------------------------

  /** The result written out finger by finger, in table order. */
  lemma SelectFingersUnfolded(landmarks: seq<Landmark>)
    ensures BasesBelowTips(Fingers)
    ensures Select(Fingers, landmarks) ==
              (if Chosen(IndexFinger, landmarks) then ["index"] else [])
            + (if Chosen(MiddleFinger, landmarks) then ["middle"] else [])
            + (if Chosen(RingFinger, landmarks) then ["ring"] else [])
            + (if Chosen(PinkyFinger, landmarks) then ["pinky"] else [])
  {
    FingersWellFormed();
    var one, two, three := [IndexFinger], [IndexFinger, MiddleFinger], [IndexFinger, MiddleFinger, RingFinger];
    assert one[..0] == [] && two[..1] == one && three[..2] == two && Fingers[..3] == three;
    assert Select(one, landmarks) == if Chosen(IndexFinger, landmarks) then ["index"] else [];
    assert Select(two, landmarks) == Select(one, landmarks)
                                     + (if Chosen(MiddleFinger, landmarks) then ["middle"] else []);
    assert Select(three, landmarks) == Select(two, landmarks)
                                       + (if Chosen(RingFinger, landmarks) then ["ring"] else []);
  }

  /** The result is an in-order, duplicate-free sub-list of the four names. */
  lemma RaisedIsOrderedSubList(landmarks: seq<Landmark>)
    ensures BasesBelowTips(Fingers)
    ensures Subsequence(Select(Fingers, landmarks), ["index", "middle", "ring", "pinky"])
    ensures Distinct(Select(Fingers, landmarks))
    ensures |Select(Fingers, landmarks)| <= |Fingers|
  {
    FingersWellFormed();
    var r := Select(Fingers, landmarks);
    SelectIsSubsequence(Fingers, landmarks);
    SubsequenceDistinct(r, Names(Fingers));
    SubsequenceLength(r, Names(Fingers));
  }

  /** A finger whose tip is present is reported exactly when its tip's y is
      strictly below its base's y; a finger whose tip is absent never is. */
  lemma FingerRaisedIff(landmarks: seq<Landmark>, k: nat)
    requires k < |Fingers|
    ensures BasesBelowTips(Fingers)
    ensures Fingers[k].name in Select(Fingers, landmarks) <==>
            (Fingers[k].tip < |landmarks| &&
             landmarks[Fingers[k].tip].y < landmarks[Fingers[k].base].y)
  {
    FingersWellFormed();
    SelectMembers(Fingers, landmarks, Fingers[k].name);
    if Fingers[k].name in Select(Fingers, landmarks) {
      var j :| 0 <= j < |Fingers| && Fingers[j].name == Fingers[k].name && Chosen(Fingers[j], landmarks);
      assert Names(Fingers)[j] == Names(Fingers)[k];
    }
  }

  /** The comparison is strict: a tip level with its base is not raised. */
  lemma LevelTipNotRaised(landmarks: seq<Landmark>, k: nat)
    requires k < |Fingers| && Fingers[k].tip < |landmarks|
    requires landmarks[Fingers[k].tip].y == landmarks[Fingers[k].base].y
    ensures BasesBelowTips(Fingers)
    ensures Fingers[k].name !in Select(Fingers, landmarks)
  {
    FingerRaisedIff(landmarks, k);
  }

  /** A finger whose tip landmark is missing is left out, without affecting
      whether any other finger is reported. */
  lemma MissingTipOmitted(landmarks: seq<Landmark>, k: nat)
    requires k < |Fingers| && |landmarks| <= Fingers[k].tip
    ensures BasesBelowTips(Fingers)
    ensures Fingers[k].name !in Select(Fingers, landmarks)
    ensures forall j :: 0 <= j < |Fingers| && j != k ==>
              (Fingers[j].name in Select(Fingers, landmarks) <==> Chosen(Fingers[j], landmarks))
  {
    FingerRaisedIff(landmarks, k);
    forall j | 0 <= j < |Fingers| && j != k
      ensures Fingers[j].name in Select(Fingers, landmarks) <==> Chosen(Fingers[j], landmarks)
    {
      FingerRaisedIff(landmarks, j);
    }
  }

  /** A hand with no landmarks has no raised finger. */
  lemma EmptyHandRaisesNothing()
    ensures BasesBelowTips(Fingers)
    ensures Select(Fingers, []) == []
  {
    SelectFingersUnfolded([]);
  }

  /** A hand truncated to ten landmarks can report the index finger only. */
  lemma TenLandmarksOnlyIndex(landmarks: seq<Landmark>)
    requires |landmarks| == 10
    ensures BasesBelowTips(Fingers)
    ensures Select(Fingers, landmarks) ==
            if landmarks[8].y < landmarks[5].y then ["index"] else []
  {
    SelectFingersUnfolded(landmarks);
  }

  /** A full hand with only the index tip above its base reports just "index". */
  lemma IndexOnlyHand(landmarks: seq<Landmark>)
    requires |landmarks| == 21
    requires landmarks[8].y < landmarks[5].y
    requires landmarks[12].y >= landmarks[9].y && landmarks[16].y >= landmarks[13].y
    requires landmarks[20].y >= landmarks[17].y
    ensures BasesBelowTips(Fingers)
    ensures Select(Fingers, landmarks) == ["index"]
  {
    SelectFingersUnfolded(landmarks);
  }

  /** The thumb (landmarks 1 to 4) has no table entry, so it is never reported,
      every reported name is one of the four table names, and every landmark
      index in the table is greater than the thumb's (1 to 4). */
  lemma ThumbNeverReported(landmarks: seq<Landmark>)
    ensures BasesBelowTips(Fingers)
    ensures "thumb" !in Select(Fingers, landmarks)
    ensures forall x :: x in Select(Fingers, landmarks) ==> x in ["index", "middle", "ring", "pinky"]
    ensures forall k :: 0 <= k < |Fingers| ==> 4 < Fingers[k].base < Fingers[k].tip
  {
    RaisedIsOrderedSubList(landmarks);
    forall x | x in Select(Fingers, landmarks) ensures x in ["index", "middle", "ring", "pinky"] {
      SubsequenceMembers(Select(Fingers, landmarks), ["index", "middle", "ring", "pinky"], x);
    }
  }

  /** Only the hand's length and the y-coordinates of landmarks 5, 8, 9, 12, 13,
      16, 17 and 20 decide the result: x-coordinates and all other landmarks,
      the intermediate joints included, have no effect. */
  lemma OnlyTipAndBaseYMatter(landmarks: seq<Landmark>, other: seq<Landmark>)
    requires |landmarks| == |other|
    requires forall i :: 0 <= i < |landmarks| && i in ReadIndices ==> landmarks[i].y == other[i].y
    ensures BasesBelowTips(Fingers)
    ensures Select(Fingers, landmarks) == Select(Fingers, other)
  {
    FingersWellFormed();
    forall k | 0 <= k < |Fingers|
      ensures Chosen(Fingers[k], landmarks) <==> Chosen(Fingers[k], other)
    {
      assert Fingers[k].base in ReadIndices && Fingers[k].tip in ReadIndices;
    }
    SelectAgree(Fingers, landmarks, other);
  }

  // ---------------------------------------------------------------------------
  // The guard as written in the source
  // ---------------------------------------------------------------------------

  /** Reading past the end of the landmark list: the index read and the length. */
  datatype IndexError = IndexError(index: nat, length: nat)

  datatype Result<T> = Success(value: T) | Failure(error: IndexError)

  /** The selection with the source's guard, which skips a finger only when the
      landmark count is below its tip index. When the count equals the tip index
      the read of the tip raises, and the exception ends the whole call. */
  function SelectAsWritten(t: seq<Finger>, landmarks: seq<Landmark>): Result<seq<string>>
    decreases |t|
  {
    if t == [] then Success([])
    else
      match SelectAsWritten(t[..|t| - 1], landmarks)
      case Failure(e) => Failure(e)
      case Success(prev) =>
        var f := t[|t| - 1];
        if |landmarks| < f.tip then Success(prev)
        else if |landmarks| <= f.base then Failure(IndexError(f.base, |landmarks|))
        else if |landmarks| <= f.tip then Failure(IndexError(f.tip, |landmarks|))
        else if landmarks[f.tip].y < landmarks[f.base].y then Success(prev + [f.name])
        else Success(prev)
  }

  /** `get_raised_fingers` with the guard exactly as written; an out-of-range
      read is returned as a `Failure`. */
  method GetRaisedFingersAsWritten(landmarks: seq<Landmark>) returns (r: Result<seq<string>>)
    ensures r == SelectAsWritten(Fingers, landmarks)
  {
    FingersWellFormed();
    var raised := [];
    for i := 0 to |Fingers|
      invariant SelectAsWritten(Fingers[..i], landmarks) == Success(raised)
    {
      assert Fingers[..i + 1][..i] == Fingers[..i];
      var finger := Fingers[i];
      if |landmarks| < finger.tip {
        continue;
      }
      // Past the guard, finger.base < finger.tip <= |landmarks|: reading the base is in range.
      var base := landmarks[finger.base];
      if finger.tip >= |landmarks| {
        AsWrittenFailureSticks(Fingers, landmarks, i + 1);
        return Failure(IndexError(finger.tip, |landmarks|));
      }
      var tip := landmarks[finger.tip];
      if tip.y < base.y {
        raised := raised + [finger.name];
      }
    }
    assert Fingers[..|Fingers|] == Fingers;
    r := Success(raised);
  }

  /** Once a prefix of the table raises, the whole walk raises the same error. */
  lemma {:induction false} AsWrittenFailureSticks(t: seq<Finger>, landmarks: seq<Landmark>, n: nat)
    requires n <= |t|
    requires SelectAsWritten(t[..n], landmarks).Failure?
    ensures SelectAsWritten(t, landmarks) == SelectAsWritten(t[..n], landmarks)
    decreases |t|
  {
    if n < |t| {
      var p := t[..|t| - 1];
      assert p[..n] == t[..n];
      AsWrittenFailureSticks(p, landmarks, n);
    } else {
      assert t[..n] == t;
    }
  }

  /** The source's guard fails exactly when some tip index equals the landmark
      count, always reading that tip; otherwise it agrees with `Select`. */
  lemma {:induction false} AsWrittenFailsIff(t: seq<Finger>, landmarks: seq<Landmark>)
    requires BasesBelowTips(t)
    ensures SelectAsWritten(t, landmarks).Failure? <==>
            exists k :: 0 <= k < |t| && t[k].tip == |landmarks|
    ensures SelectAsWritten(t, landmarks).Failure? ==>
            SelectAsWritten(t, landmarks).error == IndexError(|landmarks|, |landmarks|)
    ensures SelectAsWritten(t, landmarks).Success? ==>
            SelectAsWritten(t, landmarks).value == Select(t, landmarks)
    decreases |t|
  {
    if t != [] {
      var p := t[..|t| - 1];
      assert forall k :: 0 <= k < |p| ==> p[k] == t[k];
      AsWrittenFailsIff(p, landmarks);
    }
  }

  /** On the finger table the source raises exactly for hands of 8, 12, 16 or 20
      landmarks, and returns the corrected selection for every other length. */
  lemma AsWrittenFailsExactly(landmarks: seq<Landmark>)
    ensures BasesBelowTips(Fingers)
    ensures SelectAsWritten(Fingers, landmarks).Failure? <==> |landmarks| in {8, 12, 16, 20}
    ensures SelectAsWritten(Fingers, landmarks).Success? ==>
            SelectAsWritten(Fingers, landmarks) == Success(Select(Fingers, landmarks))
  {
    FingersWellFormed();
    AsWrittenFailsIff(Fingers, landmarks);
    if |landmarks| in {8, 12, 16, 20} {
      var k := (|landmarks| - 8) / 4;
      assert Fingers[k].tip == |landmarks|;
    }
  }

  /** The discrepancy on a concrete input: eight landmarks pass the index
      finger's guard, and the read of landmark 8 is out of range. */
  lemma EightLandmarksReadPastEnd(landmarks: seq<Landmark>)
    requires |landmarks| == 8
    ensures SelectAsWritten(Fingers, landmarks) == Failure(IndexError(8, 8))
  {
    FingersWellFormed();
    AsWrittenFailsIff(Fingers, landmarks);
    assert Fingers[0].tip == 8;
  }

  /** On the 21-landmark hands the detector supplies, the source and the
      corrected guard agree. */
  lemma FullHandAsWrittenAgrees(landmarks: seq<Landmark>)
    requires |landmarks| == 21
    ensures BasesBelowTips(Fingers)
    ensures SelectAsWritten(Fingers, landmarks) == Success(Select(Fingers, landmarks))
  {
    AsWrittenFailsExactly(landmarks);
  }
}
