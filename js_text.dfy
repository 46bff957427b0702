/** The one piece of JavaScript string building the game relies on: Array.prototype.join. */
module JsText {

  /** `parts.join(sep)`: the parts in order with `sep` between each neighbouring pair. */
  function Join(parts: seq<string>, sep: string): string
  {
    if |parts| == 0 then ""
    else if |parts| == 1 then parts[0]
    else parts[0] + sep + Join(parts[1..], sep)
  }

  /** Every part is a single character, as the masked letters and the guessed letters are. */
  predicate AllSingles(parts: seq<string>)
  {
    forall i :: 0 <= i < |parts| ==> |parts[i]| == 1
  }

  /** A join of single characters is one character per part plus one separator between each pair. */
  lemma {:induction false} JoinOfSinglesLength(parts: seq<string>, sep: string)
    requires AllSingles(parts)
    ensures |Join(parts, sep)| == if parts == [] then 0 else |parts| * (|sep| + 1) - |sep|
  {
    if |parts| >= 2 {
      JoinOfSinglesLength(parts[1..], sep);
      MulStep(|parts|, |sep| + 1);
    }
  }

  /** Where part i of a join of single characters lands: at offset i * (|sep| + 1), followed by one copy of
      `sep` unless it is the last part. */
  lemma {:induction false} JoinOfSinglesAt(parts: seq<string>, sep: string, i: int)
    requires AllSingles(parts) && 0 <= i < |parts|
    ensures var at := i * (|sep| + 1);
      at < |Join(parts, sep)| && Join(parts, sep)[at] == parts[i][0] &&
      (i < |parts| - 1 ==> at + |sep| < |Join(parts, sep)| && Join(parts, sep)[at + 1 .. at + 1 + |sep|] == sep)
  {
    if |parts| >= 2 {
      var r := Join(parts, sep);
      var tail := Join(parts[1..], sep);
      assert r == parts[0] + sep + tail;
      if i == 0 {
        assert r[1 .. 1 + |sep|] == sep;
      } else {
        JoinOfSinglesAt(parts[1..], sep, i - 1);
        MulStep(i, |sep| + 1);
        ShiftedPart(parts[0], sep, tail, i - 1, (i - 1) * (|sep| + 1), parts[1..], i * (|sep| + 1));
      }
    }
  }

  /** Multiplying by one more than `i - 1` adds one more `w`. */
  lemma MulStep(i: int, w: int)
    ensures i * w == w + (i - 1) * w
  {
  }

  /** A character of the tail of `head + sep + tail` found at `at` in the tail is found `|head| + |sep|`
      further on in the whole; likewise a copy of `sep` there. */
  lemma ShiftedPart(head: string, sep: string, tail: string, j: int, at: int, rest: seq<string>, shifted: int)
    requires |head| == 1 && 0 <= j < |rest| && AllSingles(rest)
    requires shifted == at + |sep| + 1
    requires 0 <= at < |tail| && tail[at] == rest[j][0]
    requires j < |rest| - 1 ==> at + |sep| < |tail| && tail[at + 1 .. at + 1 + |sep|] == sep
    ensures shifted < |head + sep + tail| && (head + sep + tail)[shifted] == rest[j][0]
    ensures j < |rest| - 1 ==>
      shifted + |sep| < |head + sep + tail| && (head + sep + tail)[shifted + 1 .. shifted + 1 + |sep|] == sep
  {
  }
}
