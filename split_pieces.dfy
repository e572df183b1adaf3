/**
 The pieces `split(/\s+/)` makes of a string, and the whitespace runs between
 them: joining the pieces back with those runs gives the string again, so no
 piece, the middle ones included, can be anything other than what lies
 between two runs.
 */
module SplitPieces {
  import opened NameFormat

  /** The whitespace runs that `Split` cuts `s` at, in order: the run after
      the first piece, then the runs of what follows it. */
  function Separators(s: string): (runs: seq<string>)
    ensures |runs| == |Split(s)| - 1
    decreases |s|
  {
    var w := FirstWord(s);
    if |w| == |s| then
      []
    else
      var rest := s[|w|..];
      var t := TrimStart(rest);
      [rest[..|rest| - |t|]] + Separators(t)
  }

  /** The pieces with the given runs put back between neighbouring pieces. */
  function Interleave(parts: seq<string>, runs: seq<string>): string
    requires |parts| >= 1 && |runs| == |parts| - 1
    decreases |parts|
  {
    if |parts| == 1 then parts[0]
    else parts[0] + runs[0] + Interleave(parts[1..], runs[1..])
  }

  /** `Split` loses nothing but whitespace: the input is its pieces with a
      non-empty run of whitespace between each two neighbours. Together with
      SplitPiecesHaveNoSpace this fixes every piece, the middle ones included. */
  lemma {:induction false} SplitRebuilds(s: string)
    ensures Interleave(Split(s), Separators(s)) == s
    ensures forall i :: 0 <= i < |Separators(s)| ==>
              Separators(s)[i] != [] && AllSpace(Separators(s)[i])
    ensures forall k :: 0 < k < |Split(s)| - 1 ==> Split(s)[k] != []
    decreases |s|
  {
    MiddlePiecesNonEmpty(s);
    var w := FirstWord(s);
    if |w| == |s| {
      FirstWordIsPrefix(s);
    } else {
      var rest := s[|w|..];
      var t := TrimStart(rest);
      var r := rest[..|rest| - |t|];
      SplitRebuilds(t);
      SplitStep(s);
      SeparatorsStep(s);
      InterleaveStep(w, Split(t), r, Separators(t));
      CutAtFirstRun(s);
      forall i | 0 <= i < |Separators(s)|
        ensures Separators(s)[i] != [] && AllSpace(Separators(s)[i])
      {
        if i > 0 { assert Separators(s)[i] == Separators(t)[i - 1]; }
      }
    }
  }

  /** Runs of whitespace are cut as a whole, so only the first and the last
      piece can be empty (when the string starts or ends with whitespace). */
  lemma {:induction false} MiddlePiecesNonEmpty(s: string)
    ensures forall k :: 0 < k < |Split(s)| - 1 ==> Split(s)[k] != []
    decreases |s|
  {
    var w := FirstWord(s);
    if |w| < |s| {
      var t := TrimStart(s[|w|..]);
      MiddlePiecesNonEmpty(t);
      SplitStep(s);
      SplitMoreThanOne(t);
      SplitFirst(t);
      forall k | 0 < k < |Split(s)| - 1 ensures Split(s)[k] != [] {
        assert Split(s)[k] == Split(t)[k - 1];
        if k == 1 {
          assert t != [] && !IsSpace(t[0]);
        }
      }
    }
  }

  /** One step of `Separators` on a string that holds whitespace. */
  lemma SeparatorsStep(s: string)
    requires |FirstWord(s)| < |s|
    ensures var rest := s[|FirstWord(s)|..];
            var t := TrimStart(rest);
            Separators(s) == [rest[..|rest| - |t|]] + Separators(t)
  {
  }

  /** A string with whitespace after its first word is that word, the
      whitespace run that follows it, and the rest. */
  lemma CutAtFirstRun(s: string)
    requires |FirstWord(s)| < |s|
    ensures var w := FirstWord(s);
            var rest := s[|w|..];
            var t := TrimStart(rest);
            var r := rest[..|rest| - |t|];
            s == w + r + t && r != [] && AllSpace(r)
  {
    var w := FirstWord(s);
    var rest := s[|w|..];
    var t := TrimStart(rest);
    var j := |s| - |t|;
    FirstWordIsPrefix(s);
    TrimStartIsSuffix(rest);
    assert t == s[j..];
    assert rest[..|rest| - |t|] == s[|w|..j];
    ThreeSlices(s, |w|, j);
  }

  /** Cutting a string at two points and joining the three parts gives it back. */
  lemma ThreeSlices(s: string, i: nat, j: nat)
    requires i <= j <= |s|
    ensures s == s[..i] + s[i..j] + s[j..]
  {
  }

  lemma InterleaveStep(w: string, parts: seq<string>, r: string, runs: seq<string>)
    requires |parts| >= 1 && |runs| == |parts| - 1
    ensures Interleave([w] + parts, [r] + runs) == w + r + Interleave(parts, runs)
  {
    assert ([w] + parts)[1..] == parts;
    assert ([r] + runs)[1..] == runs;
  }
}
