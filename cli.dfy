/** The comma-list helper of the `analyze` command (cmd/analyze.go), which
    turns the user's skip and include answers into lists. */
module Cli {
  import opened Text

  /** What `processStringList` returns: nothing for the empty answer, and
      otherwise every comma-separated segment with its surrounding whitespace
      removed, in order. */
  function StringList(input: string): seq<string> {
    if input == [] then [] else TrimAll(Split(input, ','))
  }

  /** Each segment trimmed, in order. */
  function TrimAll(segments: seq<string>): (r: seq<string>)
    ensures |r| == |segments|
    ensures forall i :: 0 <= i < |r| ==> r[i] == TrimSpace(segments[i])
  {
    if segments == [] then [] else [TrimSpace(segments[0])] + TrimAll(segments[1..])
  }

  /** `processStringList`: splits on commas, then overwrites each part with
      its trimmed form. */
  method ProcessStringList(input: string) returns (parts: seq<string>)
    ensures parts == StringList(input)
    ensures input == [] ==> parts == []
    ensures input != [] ==> |parts| == Count(input, ',') + 1
    ensures forall i :: 0 <= i < |parts| ==> ',' !in parts[i] && Trimmed(parts[i])
  {
    if input == [] {
      return [];
    }
    parts := Split(input, ',');
    ghost var segments := parts;
    for i := 0 to |parts|
      invariant |parts| == |segments|
      invariant forall k :: 0 <= k < i ==> parts[k] == TrimSpace(segments[k])
      invariant forall k :: i <= k < |parts| ==> parts[k] == segments[k]
    {
      parts := parts[i := TrimSpace(parts[i])];
    }
  }

  /** Emptiness is tested before trimming: a blank answer is one empty entry,
      not an empty list. */
  lemma WhitespaceOnlyIsOneEmptyEntry()
    ensures StringList(" ") == [""]
  {
    assert Split(" ", ',') == [" "] by {
      assert Split([], ',') == [[]];
    }
    assert SkipSpace(" ", 1) == 1 && SkipSpace(" ", 0) == 1;
  }

  /** When no segment has surrounding whitespace, the list is the segments. */
  lemma {:induction false} StringListOfTrimmedSegments(input: string)
    requires input != []
    requires forall i :: 0 <= i < |Split(input, ',')| ==> Trimmed(Split(input, ',')[i])
    ensures StringList(input) == Split(input, ',')
  {
    var segments := Split(input, ',');
    var r := StringList(input);
    assert |r| == |segments|;
    forall i | 0 <= i < |segments| ensures r[i] == segments[i] {
      TrimSpaceOfTrimmed(segments[i]);
    }
  }

  /** When no segment has surrounding whitespace, joining the list with commas
      gives back the input. */
  lemma JoinRestoresInput(input: string)
    requires input != []
    requires forall i :: 0 <= i < |Split(input, ',')| ==> Trimmed(Split(input, ',')[i])
    ensures Join(StringList(input), ',') == input
  {
    StringListOfTrimmedSegments(input);
  }

  /** The converse round trip: a non-empty list of trimmed, comma-free entries
      (other than the single empty entry) survives being joined and parsed. */
  lemma ParseOfJoin(parts: seq<string>)
    requires |parts| >= 1 && parts != [[]]
    requires forall i :: 0 <= i < |parts| ==> ',' !in parts[i] && Trimmed(parts[i])
    ensures StringList(Join(parts, ',')) == parts
  {
    var input := Join(parts, ',');
    SplitJoin(parts, ',');
    assert Split([], ',') == [[]];
    StringListOfTrimmedSegments(input);
  }
}
