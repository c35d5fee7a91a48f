# Fingerprint authentication core, modelled in Dafny

This project models the decision logic of `fingerprint_auth.py`, a small
fingerprint attendance system. The program enrols subjects from webcam
captures and authenticates live captures against the enrolled templates.
Each successful authentication is logged in a per-day attendance file.
The model keeps the parts of that program that decide things:

- **Matcher** (`get_good_matches`). ORB descriptors are matrices of 32-byte
  rows, compared under the Hamming norm. For every live row, brute-force
  `knnMatch(k=2)` finds the two nearest stored rows. The row is a good match
  when `nearest < 0.75 * second`, which the model writes exactly as
  `4 * nearest < 3 * second`. The score is the number of good matches.
- **Selection and verdict** (`authenticate`). The live capture is scored
  against every subject's stored template in directory order. Subjects without
  a template are skipped. The first subject with a strictly greater score is
  kept, starting from `(0, "Unknown", None)`. The capture is accepted iff the
  best score is at least 20. A live capture with fewer than 100 descriptor
  elements is refused, and the next capture is awaited.
- **Registration** (`register`). The name must be given and non-empty. The id
  must be a non-empty string of digits that is not already in the directory.
  These checks happen before any capture. Captures with more than 100
  elements are kept, at most 5 of them. The first kept capture becomes the
  template, and the directory gains one `(Id, Name)` row. When no capture was
  kept, nothing is written.
- **Attendance ledger**. An accepted authentication reads that date's rows,
  appends one `(Id, Name, Date, Time)` row and writes the result back. There
  is no deduplication.

Module layout: `Descriptors` (rows, element count, Hamming distance),
`Matcher`, `Selection`, `Registration`, `Attendance`, and `Storage`. The
`Storage.FingerprintStore` class holds the directory, the templates and the
ledger, and its `Register`, `Authenticate` and `RecordAttendance` methods
update them in place. `Wrappers` holds `Option`.

Where the program's docstrings and its code differ, the model follows the
code: the module docstring (line 3) calls the system SIFT-based and
`extract_descriptors` (line 49) says "SIFT or ORB", but only ORB is used;
`get_good_matches` (line 55) says FLANN, but the code matches with a
brute-force Hamming matcher and has no fallback.

Behaviour the code does not have, and the model does not add:

- No averaged template is built: the template is the first kept capture only.
- No deduplication: an attendance file may hold several rows for one subject
  on one day.
- No positivity check on ids: the id `0` is accepted, because `"0".isdigit()` holds.

Registration keeps captures with more than 100 elements, while
authentication refuses captures with fewer than 100. With 32-byte rows no
capture has exactly 100 elements, so the two bounds agree
(`Registration.QualityBoundsAgree`).

## Model

| member | source | states |
|---|---|---|
| `Descriptors.Size` | fingerprint_auth.py:52 | numpy's `.size` of a descriptor matrix is 0 exactly for the empty matrix that `extract_descriptors` returns when nothing is found, and is always a multiple of the 32-byte row width |
| `Descriptors.PopCount` | fingerprint_auth.py:59 | the popcount of a byte is at most 8, and is 0 iff the byte is 0 |
| `Descriptors.Hamming` | fingerprint_auth.py:59 | the Hamming distance of two equally long byte strings is at most 8 bits per byte |
| `Descriptors.Distance` | fingerprint_auth.py:59 | the distance between two 32-byte descriptor rows is at most 256 bits |
| `Descriptors.HammingZeroIff` | fingerprint_auth.py:59 | the Hamming distance is 0 iff the two rows are identical (both directions) |
| `Descriptors.HammingSymmetric` | fingerprint_auth.py:59 | the Hamming distance is symmetric |
| `Matcher.NearestTwo` | fingerprint_auth.py:60 | the two positions returned hold a nearest distance and a nearest distance among all the other candidates, at different positions |
| `Matcher.TwoNearestDistancesUnique` | fingerprint_auth.py:60 | any two valid choices of nearest and second-nearest neighbour have the same two distances, so tie-breaking between equidistant candidates cannot change them |
| `Matcher.KnnMatch` | fingerprint_auth.py:60 | `knnMatch(desc1, desc2, k=2)` gives one entry per query row; entry `i` holds min(2, candidate rows) matches, each from row `i` to an existing candidate row at their true Hamming distance |
| `Matcher.KnnRow` | fingerprint_auth.py:60 | `knnMatch(k=2)` yields min(2, candidate rows) matches per query row; the first is a nearest candidate and the pair is a nearest and second-nearest, with the true distances |
| `Matcher.RatioTest` | fingerprint_auth.py:66 | the integer test `4*d1 < 3*d2` holds iff `d1 < 0.75 * d2` over the reals |
| `Matcher.RatioTestMonotone` | fingerprint_auth.py:66 | with the second distance fixed, lowering the nearest distance never turns an acceptance into a rejection |
| `Matcher.RowGoodAnyTwoNearest` | fingerprint_auth.py:60-66 | whichever rows are reported as the two nearest, a query row's verdict is the ratio test on their distances |
| `Matcher.GoodIndicesSpec` | fingerprint_auth.py:62-68 | each query row contributes at most one good match, and does so iff it passes the ratio test; good matches appear in increasing query order; the score is at most the number of query rows |
| `Matcher.Score` | fingerprint_auth.py:163 | `len(good_matches)`, the number of query rows that pass the ratio test, is at most the number of live descriptor rows |
| `Matcher.ScoreZeroWithoutPairs` | fingerprint_auth.py:56-64 | an empty query, an empty candidate set or a single-row candidate set (one-element pairs, skipped) scores 0 |
| `Matcher.SelfMatchScoresEveryRow` | fingerprint_auth.py:54-68 | a capture of at least two pairwise different rows matched against itself scores one good match per row |
| `Matcher.GetGoodMatches` | fingerprint_auth.py:54-68 | returns `[]` when either set is empty; otherwise returns one match per passing query row, in query order, each linking the row to a nearest candidate row at its true distance; its length is the score |
| `Selection.FirstQualityCapture` | fingerprint_auth.py:147-153 | the capture decided on was taken and has at least 100 elements; there is none iff every capture taken has fewer than 100 |
| `Selection.FirstQualityCaptureIsFirst` | fingerprint_auth.py:147-153 | the capture decided on is the first good one: it is taken at some position and every capture before that position has fewer than 100 elements and is refused |
| `Selection.FirstBestUnique` | fingerprint_auth.py:165-168 | at most one directory position is the first subject with the maximal positive score |
| `Selection.SelectionDeterministic` | fingerprint_auth.py:135-168 | the selection outcome `(best_score, best_name, best_id)` is uniquely determined by the capture, directory and templates |
| `Selection.SelectBest` | fingerprint_auth.py:135-168 | the result is `(0, "Unknown", None)` iff no subject with a template scores above 0; otherwise it is the first subject in directory order with the maximal score, skipping subjects without a template; the best score bounds every subject's score and is at most the number of live rows |
| `Selection.IdenticalTemplateReachesThreshold` | fingerprint_auth.py:160-171 | if some subject's template is the live capture itself, with at least `t` pairwise different rows, the selected best score is at least `t` and a subject is selected |
| `Registration.QualityBoundsAgree` | fingerprint_auth.py:151 | a capture passes registration's `size > 100` iff it passes authentication's `not size < 100` |
| `Registration.NameGiven` | fingerprint_auth.py:72-74 | `not name` is false: the dialog was answered (not cancelled) with a non-empty name |
| `Registration.IdTextValid` | fingerprint_auth.py:76-79 | `not id_input or not id_input.isdigit()` is false: the dialog was answered with a non-empty string of digits |
| `Registration.ParseDecimal` | fingerprint_auth.py:81 | `int(id_input)` of a digit string; it is 0 iff every digit is `0`, so `"0"` and `"000"` are both id 0 |
| `Registration.HasId` | fingerprint_auth.py:84 | `user_id in df['Id'].values`: some directory row carries the id |
| `Registration.HasIdAfterAppend` | fingerprint_auth.py:117-118 | after the new `(Id, Name)` row is appended, an id is present iff it was present before or is the new id |
| `Registration.DecimalText` | fingerprint_auth.py:119 | an id is written as a non-empty digit string without leading zeros |
| `Registration.DecimalRoundTrip` | fingerprint_auth.py:82 | the id written to the directory file as decimal digits (line 119) reads back (lines 82 and 127) as the same id; the 64-bit limit of that read is under Left out |
| `Registration.LeadingZeroIgnored` | fingerprint_auth.py:81-84 | a leading zero does not change the parsed id, so "007" is rejected as a duplicate of 7 |
| `Registration.UsableSpec` | fingerprint_auth.py:106-107 | a capture is usable iff it was taken and has more than 100 elements |
| `Registration.CollectCaptures` | fingerprint_auth.py:91-113 | keeps at most 5 captures, all taken and each with more than 100 elements; keeps exactly 5 when 5 usable ones were taken; the kept list is the first usable captures in order |
| `Attendance.Appended` | fingerprint_auth.py:180-192 | after a write, the row's date holds the previous rows followed by exactly the new row; other dates are untouched |
| `Attendance.AppendedAllPartition` | fingerprint_auth.py:188-192 | after any series of writes, each date holds its earlier rows followed by that date's new rows in arrival order, none dropped or merged |
| `Attendance.SameDayKeepsBoth` | fingerprint_auth.py:188-192 | two authentications on one day leave two rows, in order |
| `Storage.FingerprintStore.RecordAttendance` | fingerprint_auth.py:179-192 | the ledger becomes `Appended` of the old ledger; directory and templates are unchanged |
| `Storage.FingerprintStore.Register` | fingerprint_auth.py:70-121 | missing name, invalid id and duplicate id abort, in that order, and write nothing; the duplicate check does not depend on any capture; no kept capture writes nothing; otherwise the template becomes the first kept capture and the directory gains exactly one `(Id, Name)` row; distinct ids and template coverage are preserved |
| `Storage.FingerprintStore.Authenticate` | fingerprint_auth.py:125-199 | an empty directory ends with "no registered users" and writes nothing; otherwise the first capture with at least 100 elements is decided by the selection; the verdict is accepted iff the best score is at least 20 (19 rejected, 20 accepted); only an acceptance appends one attendance row; directory and templates never change |

## Left out

- The tkinter window, labels, buttons, dialogs and message boxes (lines 6-25, 204-218). The answers to the name and id dialogs are parameters, with `None` for a cancelled dialog.
- The webcam loop, `cv2.imshow` and `waitKey` (lines 92-100, 134-145). The captures the user takes with SPACE are given as a sequence of descriptor sets, and the end of that sequence stands for ESC. Frames that could not be read are retried by the program and do not appear. A user who never presses ESC keeps the real loop waiting forever; the model does not capture that.
- `enhance_fingerprint` and `extract_descriptors` (lines 37-52): OpenCV image processing and ORB detection. Each capture is given directly as the descriptor matrix extraction produces. Keypoints are unused by the matcher and are not modelled.
- `np.save`, `np.load` and the pandas CSV reads and writes. The directory, templates and attendance files are in-memory fields, and a missing file is an absent map key. Unreadable or corrupt files and pandas type inference on the name column are not modelled.
- Directory bootstrap (lines 28-35). The store is constructed from already loaded contents.
- The clock (lines 172-174). Date and time strings are parameters.
- An interruption between saving the template and writing the directory row (lines 116-119). Each method runs to completion.
- Registration.DecimalRoundTrip: ids are unbounded. pandas reads the `Id` column (lines 82 and 127) as 64-bit integers, so an id of 2^63 or more would not read back as the same integer. The program's behaviour for such ids in the duplicate check (line 84) and the template path (lines 157-158) is not modelled.
- `str.isdigit` also accepts non-ASCII digits. The model accepts only `0`-`9`.
- OpenCV reports distances as 32-bit floats. The model uses the exact integer Hamming distances, which those floats represent exactly.
- Matcher.KnnRow: the contract promises a nearest and a second-nearest candidate but not OpenCV's particular choice among equidistant rows. `Matcher.TwoNearestDistancesUnique` shows that this choice cannot change the score.
- The text of the message boxes.
