# Finger counter: the raised-finger rule

This project models the decision logic of the finger counter's hand tracker,
`HandTracker.get_raised_fingers` in `src/hand_tracker.py`, and proves what it
computes. The hand tracker keeps a constant table `FINGERS` of four entries:
index, middle, ring and pinky. Each entry is a triple (base landmark index, tip
landmark index, name). Given one hand's landmark list, the method walks the
table in order. It skips a finger when the list is shorter than the finger's tip
index (`len < tip`). Otherwise it reads the base and the tip landmarks, and it
appends the finger's name when the tip's `y` is strictly smaller than the
base's `y`. Image `y` grows downward, so a smaller `y` means "higher".

Files:

- `hand_tracker.dfy`, module `HandTracker`: the landmark and finger data types,
  the table, the reference selection `Select`, the selection loop
  `GetRaisedFingers`, the guard exactly as written (`SelectAsWritten`,
  `GetRaisedFingersAsWritten`), and the lemmas about them.
- `sequences.dfy`, module `Sequences`: order-preserving sub-lists
  (`Subsequence`) and duplicate-freedom (`Distinct`), with the lemmas the
  selection proofs use.

Modelling decisions:

- A landmark is `Landmark(x: real, y: real)`. The rule only compares `y`
  values with a strict `<`, so reals stand in for the detector's floats.
- A hand is a `seq<Landmark>`, a value. The method therefore cannot modify it,
  and because its result equals a function of the hand, two runs on the same
  hand return the same list.
- The source's guard has an off-by-one (see "## Findings"). The model keeps
  both versions. `SelectAsWritten` and `GetRaisedFingersAsWritten` follow the
  code as written, and return an `IndexError` where Python would raise one.
  `Select` and `GetRaisedFingers` use the corrected guard, and every property
  lemma is stated about them. `AsWrittenFailsExactly` proves that the two
  agree on every hand whose length is not 8, 12, 16 or 20, and in particular
  on the 21-landmark hands the detector supplies.
- The code has no thumb test and no joint-by-joint check from base to tip.
  It compares the tip against the base only, and the model does the same.
- The lemmas about `Select` describe the corrected guard. By
  `AsWrittenFailsIff`, they also hold for every call on which the source
  returns a list instead of raising.

## Model

| member | source | states |
|---|---|---|
| `HandTracker.FingersWellFormed` | src/hand_tracker.py:21-25 | The table: every entry has tip = base + 3; the spans are disjoint and increasing from landmark 5 to landmark 20; the names are "index", "middle", "ring", "pinky" in that order with no repeats; the bases and tips are exactly the landmarks {5, 8, 9, 12, 13, 16, 17, 20}. |
| `HandTracker.GetRaisedFingers` | src/hand_tracker.py:55-81 | The loop over the table (corrected guard) returns exactly the reference selection `Select(Fingers, landmarks)`. That result is an in-order, duplicate-free sub-list of the four names, of length at most 4. |
| `HandTracker.SelectIsSubsequence` | src/hand_tracker.py:58-79 | (corrected guard) For any table, the selection keeps table order and only drops names: it is a sub-list of the table's names. |
| `HandTracker.SelectMembers` | src/hand_tracker.py:58-79 | (corrected guard) For any table, a name is in the result if and only if some entry carrying that name has its tip present and its tip strictly above its base. |
| `HandTracker.SelectAgree` | src/hand_tracker.py:62-79 | (corrected guard) Two hands on which every entry gets the same verdict give the same result list. |
| `HandTracker.SelectFingersUnfolded` | src/hand_tracker.py:21-79 | (corrected guard) The result written out finger by finger: "index" if chosen, then "middle" if chosen, then "ring" if chosen, then "pinky" if chosen. |
| `HandTracker.RaisedIsOrderedSubList` | src/hand_tracker.py:21-79 | (corrected guard) The result is a sub-list of ["index", "middle", "ring", "pinky"] in that order, with no duplicates, and has at most four entries. |
| `HandTracker.FingerRaisedIff` | src/hand_tracker.py:59-79 | (corrected guard) A finger's name is in the result if and only if its tip index is below the landmark count and `landmarks[tip].y < landmarks[base].y`. |
| `HandTracker.LevelTipNotRaised` | src/hand_tracker.py:78-79 | (corrected guard) The comparison is strict: a tip level with its base (equal y) is not reported. |
| `HandTracker.MissingTipOmitted` | src/hand_tracker.py:58-60 | (corrected guard) A finger whose tip index is not below the landmark count is left out, and every other finger is still reported exactly when it is chosen. The source as written raises instead when the count equals the tip index; see "## Findings". |
| `HandTracker.EmptyHandRaisesNothing` | src/hand_tracker.py:58-60 | (corrected guard) An empty landmark list gives the empty result. |
| `HandTracker.TenLandmarksOnlyIndex` | src/hand_tracker.py:58-79 | (corrected guard) A hand of 10 landmarks gives ["index"] when landmark 8 is above landmark 5, and [] otherwise. |
| `HandTracker.IndexOnlyHand` | src/hand_tracker.py:58-79 | (corrected guard) A 21-landmark hand where only the index tip is above its base gives exactly ["index"]. |
| `HandTracker.ThumbNeverReported` | src/hand_tracker.py:21-25 | (corrected guard) "thumb" is never in the result, every reported name is one of the four table names, and every table entry's base and tip have an index greater than 4, so no thumb landmark (1 to 4) is read. |
| `HandTracker.OnlyTipAndBaseYMatter` | src/hand_tracker.py:62-78 | (corrected guard) Two hands of equal length that agree on the y of landmarks 5, 8, 9, 12, 13, 16, 17 and 20 give the same result. No x value and no other landmark affects it. |
| `HandTracker.GetRaisedFingersAsWritten` | src/hand_tracker.py:55-81 | The loop with the guard exactly as written (`len < tip` skips) returns `SelectAsWritten(Fingers, landmarks)`: the list, or the `IndexError` of the first out-of-range read. Reading the base is proved to be always in range. |
| `HandTracker.AsWrittenFailureSticks` | src/hand_tracker.py:58-63 | Once the walk raises at some entry, the whole call ends with that same error. |
| `HandTracker.AsWrittenFailsIff` | src/hand_tracker.py:59-63 | For any table with base < tip, the as-written guard raises if and only if some tip index equals the landmark count. The error is always a read of index `len` in a list of length `len`. On success the result equals the corrected `Select`. |
| `HandTracker.AsWrittenFailsExactly` | src/hand_tracker.py:59-63 | For the finger table, the as-written code raises exactly for hands of 8, 12, 16 or 20 landmarks. For every other length it returns the corrected result. |
| `HandTracker.EightLandmarksReadPastEnd` | src/hand_tracker.py:59-63 | A hand of 8 landmarks passes the index finger's guard, and the read of landmark 8 is out of range: `IndexError(8, 8)`. |
| `HandTracker.FullHandAsWrittenAgrees` | src/hand_tracker.py:59-63 | On a 21-landmark hand, the as-written code and the corrected guard return the same list. |

## Findings

| source | as written | input that shows it | evidently intended | confidence | as-written member | corrected member |
|---|---|---|---|---|---|---|
| src/hand_tracker.py:59 | `if len(landmarks.landmark) < finger[1]: continue` skips a finger only when the count is below the tip index, so line 63 reads `landmark[finger[1]]` with index equal to the count | a hand of 8 landmarks: the index finger (tip 8) passes the guard and reading landmark 8 raises `IndexError`; likewise 12, 16 and 20 landmarks | skip when the count is at most the tip index (`<=`), so that a finger whose tip is missing is not raised | high; not executed | `HandTracker.EightLandmarksReadPastEnd` | `HandTracker.GetRaisedFingers` |

## Left out

- The drawing calls `cv.circle` and the pixel conversions `int(base.x*w)`, `int(tip.x*w)` (src/hand_tracker.py:68-76). They only paint the image and do not affect the result.
- The image parameter `img` and the unpacking of `img.shape` (src/hand_tracker.py:56). The result does not depend on the image.
- `HandTracker.__init__` and the `hands` property (src/hand_tracker.py:27-40). They wrap the MediaPipe library; landmark detection itself is external.
- The landmark's `z` coordinate. The rule never reads it.
- Floating point. The `y` values are modelled as reals. NaN and infinite coordinates are not modelled.
- src/cv_utils.py: camera capture, the window, colour conversion and the text overlay are I/O and library calls. Its `get_fingers` passes the RGB image where the landmark list is expected. The model takes the landmark list directly.
- src/finger_counter.py (the frame loop), src/__main__.py (the command-line entry point) and src/__init__.py (metadata). They are I/O plumbing and metadata.
- A thumb rule, hand-orientation detection and a joint-by-joint check of `y`. The code does not implement them.
