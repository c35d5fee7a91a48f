/**
 * Registration rules of `register`: the name and id checks made before the
 * camera opens, the reading of the id text as a number, and the filtering
 * of the captures taken while the camera is open.
 */
module Registration {
  import opened Wrappers
  import opened Descriptors
  import opened Selection

  /** A capture is kept only when its descriptor matrix has more elements than this. */
  const MinCaptureSize: nat := 100

  /** At most this many captures are taken. */
  const MaxCaptures: nat := 5

  /** `not name` is false: the dialog was not cancelled and the name is not empty. */
  predicate NameGiven(name: Option<string>)
  {
    name.Some? && name.value != ""
  }

  predicate IsDigit(c: char)
  {
    '0' <= c <= '9'
  }

  predicate AllDigits(s: string)
  {
    forall i :: 0 <= i < |s| ==> IsDigit(s[i])
  }

  /** `not id_input or not id_input.isdigit()` is false. */
  predicate IdTextValid(idText: Option<string>)
  {
    idText.Some? && idText.value != "" && AllDigits(idText.value)
  }

  function DigitValue(c: char): (d: nat)
    requires IsDigit(c)
    ensures d < 10
  {
    c as int - '0' as int
  }

  function DigitChar(d: nat): (c: char)
    requires d < 10
    ensures IsDigit(c) && DigitValue(c) == d
  {
    ('0' as int + d) as char
  }

  /** `int(id_input)` for a string of decimal digits. Only a string of
      zeros reads as 0. */
  function ParseDecimal(s: string): (n: nat)
    requires AllDigits(s)
    ensures n == 0 <==> forall i :: 0 <= i < |s| ==> s[i] == '0'
  {
    if s == "" then 0 else ParseDecimal(s[..|s| - 1]) * 10 + DigitValue(s[|s| - 1])
  }

  /** The decimal text an id is written as in the directory file. */
  function DecimalText(n: nat): (s: string)
    ensures s != "" && AllDigits(s)
    ensures |s| > 1 ==> s[0] != '0'
  {
    if n < 10 then [DigitChar(n)] else DecimalText(n / 10) + [DigitChar(n % 10)]
  }

  /** Writing an id as text and reading it back gives the same id. */
  lemma {:induction false} DecimalRoundTrip(n: nat)
    ensures ParseDecimal(DecimalText(n)) == n
  {
    if n >= 10 {
      DecimalRoundTrip(n / 10);
      var s := DecimalText(n);
      assert s[..|s| - 1] == DecimalText(n / 10);
    }
  }

  /** Leading zeros do not change the id: "007" is the same id as "7", so
      the duplicate check sees through them. */
  lemma {:induction false} LeadingZeroIgnored(s: string)
    requires AllDigits(s)
    ensures AllDigits("0" + s) && ParseDecimal("0" + s) == ParseDecimal(s)
  {
    var t := "0" + s;
    assert AllDigits(t) by {
      forall i | 0 <= i < |t| ensures IsDigit(t[i]) {
        if i > 0 { assert t[i] == s[i - 1]; }
      }
    }
    if s != "" {
      LeadingZeroIgnored(s[..|s| - 1]);
      assert t[..|t| - 1] == "0" + s[..|s| - 1];
    }
  }

  /** `user_id in df['Id'].values`. */
  predicate HasId(dir: seq<Subject>, id: nat)
  {
    exists j :: 0 <= j < |dir| && dir[j].id == id
  }

  /** After a subject is appended, an id is present iff it was present
      before or is the new subject's id. */
  lemma HasIdAfterAppend(dir: seq<Subject>, s: Subject, id: nat)
    ensures HasId(dir + [s], id) <==> HasId(dir, id) || s.id == id
  {
    var d := dir + [s];
    if HasId(dir, id) {
      var j :| 0 <= j < |dir| && dir[j].id == id;
      assert d[j] == dir[j];
    }
    if s.id == id {
      assert d[|dir|] == s;
    }
  }

  /** Registration keeps a capture with more than `MinCaptureSize`
      elements, while authentication refuses one with fewer than
      `MinLiveSize`; they would disagree only on exactly 100 elements, which
      no descriptor set has, so a capture is good for one iff for the other. */
  lemma QualityBoundsAgree(ds: DescriptorSet)
    ensures Size(ds) > MinCaptureSize <==> !(Size(ds) < MinLiveSize)
  {
  }

  /** The captures with more than `MinCaptureSize` elements, in capture order. */
  function Usable(shots: seq<DescriptorSet>): seq<DescriptorSet>
  {
    if shots == [] then []
    else (if Size(shots[0]) > MinCaptureSize then [shots[0]] else []) + Usable(shots[1..])
  }

  /** A capture is usable exactly when it was taken and has more than
      `MinCaptureSize` elements. */
  lemma {:induction false} UsableSpec(shots: seq<DescriptorSet>)
    ensures |Usable(shots)| <= |shots|
    ensures forall c :: c in Usable(shots) <==> c in shots && Size(c) > MinCaptureSize
  {
    if shots != [] {
      UsableSpec(shots[1..]);
      assert shots == [shots[0]] + shots[1..];
    }
  }

  /** Filtering a suffix looks at its first capture, then at the rest. */
  lemma UsableStep(shots: seq<DescriptorSet>, i: nat)
    requires i < |shots|
    ensures Usable(shots[i..]) ==
            (if Size(shots[i]) > MinCaptureSize then [shots[i]] else []) + Usable(shots[i + 1..])
  {
    assert shots[i..][1..] == shots[i + 1..];
  }

  /** The captures `register` keeps: the first `MaxCaptures` usable ones. */
  function Kept(shots: seq<DescriptorSet>): seq<DescriptorSet>
  {
    var u := Usable(shots);
    if |u| <= MaxCaptures then u else u[..MaxCaptures]
  }

  /** The capture loop of `register`. `shots` are the descriptor sets of the
      captures the user takes, in order; the sequence ends where the user
      stops. Captures with too few elements are refused, and the loop ends
      once `MaxCaptures` are kept. */
  method CollectCaptures(shots: seq<DescriptorSet>) returns (captures: seq<DescriptorSet>)
    ensures |captures| <= MaxCaptures
    ensures forall c :: c in captures ==> c in shots && Size(c) > MinCaptureSize
    ensures |Usable(shots)| >= MaxCaptures ==> |captures| == MaxCaptures
    ensures captures == Kept(shots)
  {
    captures := [];
    var i := 0;
    while |captures| < MaxCaptures && i < |shots|
      invariant 0 <= i <= |shots|
      invariant |captures| <= MaxCaptures
      invariant Usable(shots) == captures + Usable(shots[i..])
    {
      var desc := shots[i];
      UsableStep(shots, i);
      if Size(desc) > MinCaptureSize {
        captures := captures + [desc];
      }
      i := i + 1;
    }
    if i == |shots| {
      assert shots[i..] == [];
    }
    PrefixOfUsable(shots, captures);
  }

  /** A prefix of the usable captures holds only usable captures, and is
      what `Kept` keeps when it is full or when nothing follows it. */
  lemma PrefixOfUsable(shots: seq<DescriptorSet>, captures: seq<DescriptorSet>)
    requires |captures| <= MaxCaptures
    requires captures <= Usable(shots)
    requires |captures| == MaxCaptures || captures == Usable(shots)
    ensures forall c :: c in captures ==> c in shots && Size(c) > MinCaptureSize
    ensures |Usable(shots)| >= MaxCaptures ==> |captures| == MaxCaptures
    ensures captures == Kept(shots)
  {
    UsableSpec(shots);
    var u := Usable(shots);
    forall c | c in captures ensures c in u {
      var k :| 0 <= k < |captures| && captures[k] == c;
      assert u[k] == c;
    }
    if |captures| == MaxCaptures {
      assert captures == u[..MaxCaptures];
    }
  }
}
