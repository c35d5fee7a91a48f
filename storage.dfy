/**
 * The persistent state the two flows of the program update: the subject
 * directory (the rows of the details file, in file order), the stored
 * templates (one descriptor matrix per id) and the attendance ledger, with
 * `register` and `authenticate` as the operations on it.
 */
module Storage {
  import opened Wrappers
  import opened Descriptors
  import opened Selection
  import opened Registration
  import opened Attendance

  /** How a registration attempt ends. */
  datatype RegOutcome =
    | NameMissing                  // the name dialog was cancelled or left empty
    | InvalidId                    // the id is missing, empty or not all digits
    | DuplicateId(id: nat)         // the id is already in the directory
    | NoUsableCapture              // the camera closed before any capture was kept
    | Registered(id: nat, name: string)

  /** How an authentication attempt ends. */
  datatype AuthOutcome =
    | NoRegisteredUsers            // the directory is empty
    | Cancelled                    // the camera closed before a capture was good enough
    | Accepted(id: nat, name: string, score: nat)
    | Rejected(score: nat, name: string, bestId: Option<nat>)

  class FingerprintStore {
    var directory: seq<Subject>
    var templates: map<nat, DescriptorSet>
    var ledger: Ledger

    /** The store as loaded from disk. */
    constructor (directory: seq<Subject>, templates: map<nat, DescriptorSet>, ledger: Ledger)
      ensures this.directory == directory && this.templates == templates && this.ledger == ledger
    {
      this.directory := directory;
      this.templates := templates;
      this.ledger := ledger;
    }

    /** No id occurs twice in the directory. */
    ghost predicate IdsDistinct()
      reads this
    {
      forall a, b :: 0 <= a < b < |directory| ==> directory[a].id != directory[b].id
    }

    /** Every subject in the directory has a stored template. */
    ghost predicate EveryoneHasTemplate()
      reads this
    {
      forall j :: 0 <= j < |directory| ==> directory[j].id in templates
    }

    /** Appends `row` to the file of its date: the existing rows of that date
        are read, the new row is put after them, and the result is written. */
    method RecordAttendance(row: AttendanceRow)
      modifies this
      ensures ledger == Appended(old(ledger), row)
      ensures directory == old(directory) && templates == old(templates)
    {
      var rows := [row];
      if row.date in ledger {
        var existing := ledger[row.date];
        rows := existing + rows;
      }
      assert rows == Partition(ledger, row.date) + [row];
      ledger := ledger[row.date := rows];
    }

    /** `register`: `name` and `idText` are the answers to the two dialogs
        (`None` when cancelled), `shots` the descriptor sets of the captures
        the user takes before stopping. */
    method Register(name: Option<string>, idText: Option<string>, shots: seq<DescriptorSet>)
      returns (outcome: RegOutcome)
      modifies this
      ensures ledger == old(ledger)
      ensures !NameGiven(name) ==> outcome == NameMissing
      ensures NameGiven(name) && !IdTextValid(idText) ==> outcome == InvalidId
      ensures NameGiven(name) && IdTextValid(idText) ==>
                var id := ParseDecimal(idText.value);
                if HasId(old(directory), id) then outcome == DuplicateId(id)
                else if Kept(shots) == [] then outcome == NoUsableCapture
                else outcome == Registered(id, name.value)
      ensures outcome.Registered? ==>
                && directory == old(directory) + [Subject(outcome.id, outcome.name)]
                && templates == old(templates)[outcome.id := Kept(shots)[0]]
      ensures !outcome.Registered? ==> directory == old(directory) && templates == old(templates)
      ensures old(IdsDistinct()) ==> IdsDistinct()
      ensures old(EveryoneHasTemplate()) ==> EveryoneHasTemplate()
    {
      if !NameGiven(name) {
        return NameMissing;
      }
      if !IdTextValid(idText) {
        return InvalidId;
      }
      var id := ParseDecimal(idText.value);
      if HasId(directory, id) {
        return DuplicateId(id);
      }
      var captures := CollectCaptures(shots);
      if captures == [] {
        return NoUsableCapture;
      }
      templates := templates[id := captures[0]];
      directory := directory + [Subject(id, name.value)];
      outcome := Registered(id, name.value);
    }

    /** `authenticate`: `shots` are the descriptor sets of the captures the
        user takes before stopping; `date` and `time` are the clock reading
        used for the attendance row. Captures with too few elements are
        refused and the next one is awaited; the first good one is decided. */
    method Authenticate(shots: seq<DescriptorSet>, date: string, time: string) returns (outcome: AuthOutcome)
      modifies this
      ensures directory == old(directory) && templates == old(templates)
      ensures old(directory) == [] ==> outcome == NoRegisteredUsers
      ensures old(directory) != [] && FirstQualityCapture(shots).None? ==> outcome == Cancelled
      ensures outcome.Accepted? ==>
                && FirstQualityCapture(shots).Some?
                && IsSelection(FirstQualityCapture(shots).value, directory, templates,
                               outcome.score, outcome.name, Some(outcome.id))
                && outcome.score >= AcceptThreshold
                && ledger == Appended(old(ledger), AttendanceRow(outcome.id, outcome.name, date, time))
      ensures outcome.Rejected? ==>
                && FirstQualityCapture(shots).Some?
                && IsSelection(FirstQualityCapture(shots).value, directory, templates,
                               outcome.score, outcome.name, outcome.bestId)
                && outcome.score < AcceptThreshold
      ensures !outcome.Accepted? ==> ledger == old(ledger)
      ensures old(directory) != [] && FirstQualityCapture(shots).Some? ==> outcome.Accepted? || outcome.Rejected?
    {
      if directory == [] {
        return NoRegisteredUsers;
      }
      var i := 0;
      while i < |shots|
        invariant 0 <= i <= |shots|
        invariant FirstQualityCapture(shots) == FirstQualityCapture(shots[i..])
        invariant directory == old(directory) && templates == old(templates) && ledger == old(ledger)
      {
        var live := shots[i];
        assert shots[i..] == [live] + shots[i + 1..];
        if Size(live) < MinLiveSize {
          i := i + 1;
          continue;
        }
        var bestScore, bestName, bestId := SelectBest(live, directory, templates);
        if bestScore >= AcceptThreshold {
          var id := bestId.value;
          RecordAttendance(AttendanceRow(id, bestName, date, time));
          return Accepted(id, bestName, bestScore);
        }
        return Rejected(bestScore, bestName, bestId);
      }
      assert shots[i..] == [];
      outcome := Cancelled;
    }
  }
}
