/** The length filter of load_dictionary. Reading the file is not modelled:
    the dictionary file is the sequence of lines fgets would return. */
module Dictionary {
  import opened Letters

  /** The words load_dictionary keeps, in file order: each line cut at its
      newline, kept when its length is the game's word length */
  function LengthFiltered(lines: seq<string>, wordLength: int): (words: seq<string>)
    ensures |words| <= |lines|
    ensures forall k :: 0 <= k < |words| ==> |words[k]| == wordLength && '\n' !in words[k]
    ensures forall k :: 0 <= k < |words| ==> exists i :: 0 <= i < |lines| && StripNewline(lines[i]) == words[k]
    ensures forall i :: 0 <= i < |lines| && |StripNewline(lines[i])| == wordLength ==> StripNewline(lines[i]) in words
  {
    if lines == [] then []
    else
      var rest := LengthFiltered(lines[..|lines| - 1], wordLength);
      var word := StripNewline(lines[|lines| - 1]);
      if |word| == wordLength then rest + [word] else rest
  }

  /** load_dictionary: grows the dictionary one accepted word at a time */
  method LoadDictionary(lines: seq<string>, wordLength: int) returns (dictionary: seq<string>)
    ensures dictionary == LengthFiltered(lines, wordLength)
  {
    dictionary := [];
    var i := 0;
    while i < |lines|
      invariant 0 <= i <= |lines|
      invariant dictionary == LengthFiltered(lines[..i], wordLength)
    {
      var word := StripNewline(lines[i]);
      assert lines[..i + 1][..i] == lines[..i];
      if |word| == wordLength {
        dictionary := dictionary + [word];
      }
      i := i + 1;
    }
    assert lines[..|lines|] == lines;
  }
}
