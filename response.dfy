/** The reply texts of the `/classify` handler and the comma-joined list of
    matched file names inside the success message. */
module Response {

  /** The JSON body of a reply: a `result` text, or an `error` text. */
  datatype Reply = Result(result: string) | Error(error: string)

  const NoFacesText: string := "No faces detected in the uploaded image"
  const DirMissingText: string := "Known faces directory not found"
  const DirEmptyText: string := "No known faces in the directory"
  const MatchPrefix: string := "Match found in the following images: "
  const NoMatchText: string := "No match found in the database"

  /** Separator of the matched names, as in `matchedImages.join(', ')`. */
  const Separator: string := ", "

  /** The names separated by ", "; the empty list joins to the empty text. */
  function Join(names: seq<string>): string
  {
    if names == [] then ""
    else if |names| == 1 then names[0]
    else names[0] + Separator + Join(names[1..])
  }

  /** Position of the first ',' in `s`, or |s| when there is none. */
  function FirstComma(s: string): (k: nat)
    ensures k <= |s|
    ensures forall m :: 0 <= m < k ==> s[m] != ','
    ensures k < |s| ==> s[k] == ','
  {
    if s == [] then 0
    else if s[0] == ',' then 0
    else 1 + FirstComma(s[1..])
  }

  /** Reads a joined list back: cut at each ',' and skip the one character
      (the space of the separator) that follows it. */
  function Split(s: string): seq<string>
    decreases |s|
  {
    var k := FirstComma(s);
    if k == |s| then [s]
    else if k + 2 <= |s| then [s[..k]] + Split(s[k + 2..])
    else [s[..k]]
  }

  /** A name in which no ',' occurs. */
  predicate CommaFree(name: string)
  {
    forall m :: 0 <= m < |name| ==> name[m] != ','
  }

  /** The first ',' of a comma-free name followed by the separator is the
      separator's own. */
  lemma FirstCommaAfterName(name: string, rest: string)
    requires CommaFree(name)
    ensures FirstComma(name + Separator + rest) == |name|
  {
    var s := name + Separator + rest;
    assert forall m :: 0 <= m < |name| ==> s[m] == name[m];
    assert s[|name|] == ',';
  }

  /** Joining is undone by splitting, as long as no name holds a comma:
      the reply text then determines the list of matched names. */
  lemma {:induction false} SplitJoin(names: seq<string>)
    requires names != []
    requires forall i :: 0 <= i < |names| ==> CommaFree(names[i])
    ensures Split(Join(names)) == names
    decreases |names|
  {
    if |names| == 1 {
      assert CommaFree(names[0]);
    } else {
      var rest := Join(names[1..]);
      var s := names[0] + Separator + rest;
      FirstCommaAfterName(names[0], rest);
      assert s[..|names[0]|] == names[0];
      assert s[|names[0]| + 2..] == rest;
      SplitJoin(names[1..]);
      assert [names[0]] + names[1..] == names;
    }
  }

  /** Every piece that splitting returns is free of commas. */
  lemma {:induction false} SplitCommaFree(s: string)
    ensures forall i :: 0 <= i < |Split(s)| ==> CommaFree(Split(s)[i])
    decreases |s|
  {
    var k := FirstComma(s);
    if k < |s| && k + 2 <= |s| {
      SplitCommaFree(s[k + 2..]);
      var rest := Split(s[k + 2..]);
      assert Split(s) == [s[..k]] + rest;
      forall i | 0 <= i < |Split(s)| ensures CommaFree(Split(s)[i]) {
        if i > 0 {
          assert Split(s)[i] == rest[i - 1];
        }
      }
    }
  }

  /** A non-empty list of names is recovered from its joined text exactly
      when no name contains a comma. */
  lemma SplitJoinExactly(names: seq<string>)
    requires names != []
    ensures Split(Join(names)) == names <==> forall i :: 0 <= i < |names| ==> CommaFree(names[i])
  {
    SplitCommaFree(Join(names));
    if forall i :: 0 <= i < |names| ==> CommaFree(names[i]) {
      SplitJoin(names);
    }
  }
}
