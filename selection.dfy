/**
 * Best-candidate selection of `authenticate`: the live descriptors are
 * scored against the stored template of every subject in directory order,
 * subjects without a stored template are skipped, and the first subject
 * with a strictly greater score than all before it is kept.
 */
module Selection {
  import opened Wrappers
  import opened Descriptors
  import opened Matcher

  /** One row of the subject directory: `(Id, Name)`. */
  datatype Subject = Subject(id: nat, name: string)

  /** The lowest best score that authenticates. */
  const AcceptThreshold: nat := 20

  /** A live capture with fewer descriptor elements than this is refused. */
  const MinLiveSize: nat := 100

  /** The capture `authenticate` decides on: the first one that is not
      refused for having fewer than `MinLiveSize` elements. */
  function FirstQualityCapture(shots: seq<DescriptorSet>): (r: Option<DescriptorSet>)
    ensures r.Some? ==> r.value in shots && Size(r.value) >= MinLiveSize
    ensures r.None? <==> forall c :: c in shots ==> Size(c) < MinLiveSize
  {
    if shots == [] then None
    else if Size(shots[0]) < MinLiveSize then FirstQualityCapture(shots[1..])
    else Some(shots[0])
  }

  /** The capture decided on is the first good one: it is taken at some
      position `i`, and every capture before `i` was refused. */
  lemma {:induction false} FirstQualityCaptureIsFirst(shots: seq<DescriptorSet>)
    ensures FirstQualityCapture(shots).Some? ==>
              exists i :: 0 <= i < |shots| && shots[i] == FirstQualityCapture(shots).value
                          && forall j :: 0 <= j < i ==> Size(shots[j]) < MinLiveSize
  {
    if shots != [] && Size(shots[0]) < MinLiveSize {
      var rest := shots[1..];
      FirstQualityCaptureIsFirst(rest);
      if FirstQualityCapture(rest).Some? {
        var i :| 0 <= i < |rest| && rest[i] == FirstQualityCapture(rest).value
                 && forall j :: 0 <= j < i ==> Size(rest[j]) < MinLiveSize;
        assert shots[i + 1] == rest[i];
        forall j | 0 <= j < i + 1 ensures Size(shots[j]) < MinLiveSize {
          if j > 0 { assert shots[j] == rest[j - 1]; }
        }
      }
    }
  }

  /** Name reported while no subject has scored above 0. */
  const UnknownName: string := "Unknown"

  /** Score of the live capture against the template of the subject at
      directory position `j`. */
  function ScoreAt(live: DescriptorSet, dir: seq<Subject>, tpl: map<nat, DescriptorSet>, j: nat): nat
    requires j < |dir| && dir[j].id in tpl
  {
    Score(live, tpl[dir[j].id])
  }

  /** Position `k` holds the subject the selection must report: it has a
      template, a positive score no other subject beats, and every subject
      before it with a template scores strictly less. */
  ghost predicate IsFirstBest(live: DescriptorSet, dir: seq<Subject>, tpl: map<nat, DescriptorSet>, k: nat)
  {
    && k < |dir| && dir[k].id in tpl
    && ScoreAt(live, dir, tpl, k) > 0
    && (forall j :: 0 <= j < |dir| && dir[j].id in tpl ==> ScoreAt(live, dir, tpl, j) <= ScoreAt(live, dir, tpl, k))
    && (forall j :: 0 <= j < k && dir[j].id in tpl ==> ScoreAt(live, dir, tpl, j) < ScoreAt(live, dir, tpl, k))
  }

  /** No subject with a template scores above 0 (vacuously so when none has one). */
  ghost predicate NoPositiveScore(live: DescriptorSet, dir: seq<Subject>, tpl: map<nat, DescriptorSet>)
  {
    forall j :: 0 <= j < |dir| && dir[j].id in tpl ==> ScoreAt(live, dir, tpl, j) == 0
  }

  /** `(score, name, id)` is what the selection loop must leave in
      `(best_score, best_name, best_id)`. */
  ghost predicate IsSelection(live: DescriptorSet, dir: seq<Subject>, tpl: map<nat, DescriptorSet>,
                              score: nat, name: string, id: Option<nat>)
  {
    if id.None? then
      score == 0 && name == UnknownName && NoPositiveScore(live, dir, tpl)
    else
      exists k: nat :: IsFirstBest(live, dir, tpl, k) && dir[k].id == id.value && dir[k].name == name
                  && score == ScoreAt(live, dir, tpl, k)
  }

  /** At most one position is the first best. */
  lemma FirstBestUnique(live: DescriptorSet, dir: seq<Subject>, tpl: map<nat, DescriptorSet>, k1: nat, k2: nat)
    requires IsFirstBest(live, dir, tpl, k1) && IsFirstBest(live, dir, tpl, k2)
    ensures k1 == k2
  {
  }

  /** The selection is fully determined by the live capture, the directory
      and the templates: there is exactly one admissible outcome. */
  lemma SelectionDeterministic(live: DescriptorSet, dir: seq<Subject>, tpl: map<nat, DescriptorSet>,
                               s1: nat, n1: string, i1: Option<nat>, s2: nat, n2: string, i2: Option<nat>)
    requires IsSelection(live, dir, tpl, s1, n1, i1)
    requires IsSelection(live, dir, tpl, s2, n2, i2)
    ensures s1 == s2 && n1 == n2 && i1 == i2
  {
  }

  /** The selection loop of `authenticate`: `(best_score, best_name, best_id)`
      after comparing the live capture with every subject that has a template. */
  method SelectBest(live: DescriptorSet, dir: seq<Subject>, tpl: map<nat, DescriptorSet>)
    returns (bestScore: nat, bestName: string, bestId: Option<nat>)
    ensures IsSelection(live, dir, tpl, bestScore, bestName, bestId)
    ensures forall j :: 0 <= j < |dir| && dir[j].id in tpl ==> ScoreAt(live, dir, tpl, j) <= bestScore
    ensures bestScore <= |live|
  {
    bestScore, bestName, bestId := 0, UnknownName, None;
    ghost var bestAt: nat := 0;
    for r := 0 to |dir|
      invariant bestScore <= |live|
      invariant bestId.None? ==> bestScore == 0 && bestName == UnknownName
      invariant forall j :: 0 <= j < r && dir[j].id in tpl ==> ScoreAt(live, dir, tpl, j) <= bestScore
      invariant bestId.Some? ==>
                  && bestAt < r && dir[bestAt].id in tpl
                  && dir[bestAt].id == bestId.value && dir[bestAt].name == bestName
                  && bestScore == ScoreAt(live, dir, tpl, bestAt) > 0
                  && forall j :: 0 <= j < bestAt && dir[j].id in tpl ==> ScoreAt(live, dir, tpl, j) < bestScore
    {
      var subject := dir[r];
      if subject.id in tpl {
        var good := GetGoodMatches(live, tpl[subject.id]);
        var score := |good|;
        GoodIndicesSpec(live, tpl[subject.id]);
        if score > bestScore {
          bestScore, bestName, bestId := score, subject.name, Some(subject.id);
          bestAt := r;
        }
      }
    }
    if bestId.Some? {
      assert IsFirstBest(live, dir, tpl, bestAt);
    }
  }

  /** A subject whose template is the live capture itself, with at least
      `threshold` pairwise different rows, makes the best score reach
      `threshold`, whoever is selected. */
  lemma IdenticalTemplateReachesThreshold(live: DescriptorSet, dir: seq<Subject>, tpl: map<nat, DescriptorSet>,
                                          k: nat, threshold: nat,
                                          score: nat, name: string, id: Option<nat>)
    requires k < |dir| && dir[k].id in tpl && tpl[dir[k].id] == live
    requires |live| >= 2 && |live| >= threshold
    requires forall a, b :: 0 <= a < b < |live| ==> live[a] != live[b]
    requires IsSelection(live, dir, tpl, score, name, id)
    ensures score >= threshold && id.Some?
  {
    SelfMatchScoresEveryRow(live);
    assert ScoreAt(live, dir, tpl, k) == |live|;
    if id.Some? {
      var b: nat :| IsFirstBest(live, dir, tpl, b) && dir[b].id == id.value && dir[b].name == name
               && score == ScoreAt(live, dir, tpl, b);
      assert ScoreAt(live, dir, tpl, k) <= score;
    }
  }
}
