/** The remapping loader: the text of `remappings.txt` becomes an ordered list
    of entries, one per non-empty line, each entry being the trimmed line cut
    at every `=`. Reading the file is not part of the model; its content is
    the parameter. */
module Remappings {
  import opened JsStrings

  /** `.filter(Boolean)` on strings: the segments other than the empty
      string, in their original order. A segment made only of whitespace is
      not empty and is kept. */
  function NonEmpty(segments: seq<string>): (kept: seq<string>)
    ensures forall i :: 0 <= i < |kept| ==> kept[i] != ""
    ensures forall x :: x in kept ==> x in segments
  {
    if segments == [] then []
    else if segments[0] == "" then NonEmpty(segments[1..])
    else [segments[0]] + NonEmpty(segments[1..])
  }

  /** The filter keeps exactly the segments that are not empty: as many as
      there are segments, less the empty ones. */
  lemma {:induction false} NonEmptyCount(segments: seq<string>)
    ensures |NonEmpty(segments)| == |segments| - multiset(segments)[""]
  {
    if segments != [] {
      NonEmptyCount(segments[1..]);
      assert segments == [segments[0]] + segments[1..];
    }
  }

  /** The position, among all segments, of the segment that the `i`-th kept
      one is: a non-empty segment with exactly `i` non-empty segments before
      it. */
  function SegmentIndex(segments: seq<string>, i: nat): (j: nat)
    requires i < |NonEmpty(segments)|
    ensures j < |segments| && segments[j] != ""
    ensures NonEmpty(segments)[i] == segments[j]
    ensures |NonEmpty(segments[..j])| == i
  {
    if segments[0] == "" then
      var j := SegmentIndex(segments[1..], i) + 1;
      assert segments[..j] == [segments[0]] + segments[1..][..j - 1];
      j
    else if i == 0 then 0
    else
      var j := SegmentIndex(segments[1..], i - 1) + 1;
      assert segments[..j] == [segments[0]] + segments[1..][..j - 1];
      j
  }

  /** `line.trim().split("=")`: the fields of one non-empty line. */
  function Fields(segment: string): (fields: seq<string>)
  {
    Split(Trim(segment), '=')
  }

  /** `getRemappings()` applied to the file content: split on line feeds, drop
      the empty segments, and cut each remaining trimmed segment at every `=`.
      Every entry has at least one field. */
  function GetRemappings(content: string): (entries: seq<seq<string>>)
    ensures forall i :: 0 <= i < |entries| ==> |entries[i]| >= 1
  {
    var segments := NonEmpty(Split(content, '\n'));
    seq(|segments|, i requires 0 <= i < |segments| => Fields(segments[i]))
  }

  /** Empty content yields no entries. */
  lemma EmptyContent()
    ensures GetRemappings("") == []
  {
    assert Split("", '\n') == [""];
  }

  /** One entry per non-empty segment of the content split at line feeds;
      segments made only of whitespace (a lone carriage return, say) count. */
  lemma EntryCount(content: string)
    ensures var segments := Split(content, '\n');
      |GetRemappings(content)| == |segments| - multiset(segments)[""]
  {
    NonEmptyCount(Split(content, '\n'));
  }

  /** Entry `i` comes from the `i`-th non-empty segment, in order: from a
      segment that has exactly `i` non-empty segments before it. Joining its
      fields with `=` gives back that segment, trimmed, and cutting that
      trimmed segment at `=` gives back the fields. */
  lemma EntryOrigin(content: string, i: nat)
    requires i < |GetRemappings(content)|
    ensures var segments := Split(content, '\n');
      var j := SegmentIndex(segments, i);
      var entry := GetRemappings(content)[i];
      |NonEmpty(segments[..j])| == i &&
      segments[j] != "" &&
      Join(entry, '=') == Trim(segments[j]) &&
      entry == Split(Trim(segments[j]), '=')
  {
    var segments := Split(content, '\n');
    var j := SegmentIndex(segments, i);
    JoinSplit(Trim(segments[j]), '=');
  }

  /** No field of any entry holds a `=` or a line feed. */
  lemma EntryFieldsClean(content: string, i: nat, k: nat)
    requires i < |GetRemappings(content)| && k < |GetRemappings(content)[i]|
    ensures '=' !in GetRemappings(content)[i][k]
    ensures '\n' !in GetRemappings(content)[i][k]
  {
    var kept := NonEmpty(Split(content, '\n'));
    var segment := kept[i];
    assert segment in Split(content, '\n');
    TrimAbsent(segment, '\n');
    SplitAbsent(Trim(segment), '=', '\n');
    assert GetRemappings(content)[i][k] in Split(Trim(segment), '=');
  }

  /** A segment with `n` occurrences of `=` yields exactly `n + 1` fields;
      trimming removes whitespace only and never a `=`. */
  lemma EntryFieldCount(content: string, i: nat)
    requires i < |GetRemappings(content)|
    ensures var segments := Split(content, '\n');
      |GetRemappings(content)[i]| == multiset(segments[SegmentIndex(segments, i)])['='] + 1
  {
    var segments := Split(content, '\n');
    var segment := segments[SegmentIndex(segments, i)];
    SplitCount(Trim(segment), '=');
    TrimKeepsNonWhitespace(segment, '=');
  }

  /** The first field does not start with whitespace and the last field does
      not end with it: trimming acts on the whole line, so whitespace next to
      a `=` inside the line stays in the fields. */
  lemma EntryEdges(content: string, i: nat)
    requires i < |GetRemappings(content)|
    ensures var entry := GetRemappings(content)[i];
      var first, last := entry[0], entry[|entry| - 1];
      (first == [] || !IsWhitespace(first[0])) &&
      (last == [] || !IsWhitespace(last[|last| - 1]))
  {
    var kept := NonEmpty(Split(content, '\n'));
    var trimmed := Trim(kept[i]);
    SplitEnds(trimmed, '=');
  }

  /** A line made only of whitespace (spaces, a carriage return) is not
      dropped by the filter: it becomes an entry with one empty field. */
  lemma WhitespaceOnlySegment(segment: string)
    requires segment != [] && AllWhitespace(segment)
    ensures NonEmpty([segment]) == [segment]
    ensures Fields(segment) == [""]
  {
    TrimUnique(segment, "", "");
    assert segment + "" + "" == segment;
    assert NonEmpty([segment]) == [segment] + NonEmpty([]);
  }

  /** A whitespace-only line anywhere in the file, such as the "\r" of a
      blank line in a file with CRLF line ends that also holds real rules,
      becomes the entry `[""]` at its own place in the list. */
  lemma BlankSegmentEntry(content: string, i: nat)
    requires i < |GetRemappings(content)|
    requires var segments := Split(content, '\n');
      AllWhitespace(segments[SegmentIndex(segments, i)])
    ensures GetRemappings(content)[i] == [""]
  {
    var segments := Split(content, '\n');
    EntryOrigin(content, i);
    WhitespaceOnlySegment(segments[SegmentIndex(segments, i)]);
  }

}
