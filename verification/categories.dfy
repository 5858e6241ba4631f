/** The category codec: `getCategoryName` and `getCategoryCodeFromName`. */
module Categories {
  import opened Wrappers
  import opened Text

  /** The lookup table of `getCategoryName`: two-digit code to name. */
  const CodeToName: map<string, string> := map[
    "01" := "Fiction", "02" := "Romance", "03" := "Mystery", "04" := "Fantasy",
    "05" := "Thriller", "06" := "Poetry", "07" := "Arts", "08" := "Non-Fiction",
    "09" := "Biography", "10" := "History", "11" := "Science", "12" := "Technology",
    "13" := "Self-Help", "14" := "Travel", "15" := "Cooking", "16" := "Children"]

  /** The lookup table of `getCategoryCodeFromName`, written out separately in the source: name to code. */
  const NameToCode: map<string, string> := map[
    "Fiction" := "01", "Romance" := "02", "Mystery" := "03", "Fantasy" := "04",
    "Thriller" := "05", "Poetry" := "06", "Arts" := "07", "Non-Fiction" := "08",
    "Biography" := "09", "History" := "10", "Science" := "11", "Technology" := "12",
    "Self-Help" := "13", "Travel" := "14", "Cooking" := "15", "Children" := "16"]

  const UNKNOWN := "Unknown"

  /** The sixteen codes, in order. */
  const Codes: seq<string> := ["01", "02", "03", "04", "05", "06", "07", "08",
                               "09", "10", "11", "12", "13", "14", "15", "16"]

  /** The codes the name table knows are exactly the sixteen codes. */
  lemma CodeKeys()
    ensures CodeToName.Keys == set c | c in Codes
  {
  }

  /** Looking a code's name up in the other table gives the code back. */
  lemma CodeToNameInverts()
    ensures forall c :: c in CodeToName ==> CodeToName[c] in NameToCode && NameToCode[CodeToName[c]] == c
  {
  }

  /** Looking a name's code up in the other table gives the name back. */
  lemma NameToCodeInverts()
    ensures forall n :: n in NameToCode ==> NameToCode[n] in CodeToName && CodeToName[NameToCode[n]] == n
  {
  }

  /** The two tables describe one and the same bijection between the sixteen codes and the sixteen names. */
  lemma TablesAreInverse()
    ensures CodeToName.Keys == set c | c in Codes
    ensures forall c :: c in CodeToName ==> CodeToName[c] in NameToCode && NameToCode[CodeToName[c]] == c
    ensures forall n :: n in NameToCode ==> NameToCode[n] in CodeToName && CodeToName[NameToCode[n]] == n
  {
    CodeKeys();
    CodeToNameInverts();
    NameToCodeInverts();
  }

  /**
   * `getCategoryName`: the code is left-padded with "0" to two characters and
   * looked up; anything that is not one of the sixteen codes is "Unknown".
   */
  function CategoryName(code: string): (r: string)
    ensures r == UNKNOWN <==> PadStart(code, 2) !in Codes
    ensures r != UNKNOWN ==> r in NameToCode && NameToCode[r] == PadStart(code, 2)
  {
    TablesAreInverse();
    var padded := PadStart(code, 2);
    if padded in CodeToName then CodeToName[padded] else UNKNOWN
  }

  /** `getCategoryCodeFromName`: the code of one of the sixteen names (exact spelling), or `null`. */
  function CategoryCodeFromName(name: string): (r: Option<string>)
    ensures r.Some? <==> name in NameToCode
    ensures r.Some? ==> r.value == NameToCode[name] && |r.value| == 2
  {
    if name in NameToCode then Some(NameToCode[name]) else None
  }

  /** A name gets a code exactly when it is one of the sixteen names, and that code names it. */
  lemma CodeFromNameSound(name: string)
    ensures CategoryCodeFromName(name).None? <==> name !in NameToCode
    ensures CategoryCodeFromName(name).Some? ==>
      var code := CategoryCodeFromName(name).value;
      code in CodeToName && CodeToName[code] == name
  {
    NameToCodeInverts();
  }

  /** Every code names a category that maps back to that code. */
  lemma CodeRoundTrip(code: string)
    requires code in Codes
    ensures CategoryCodeFromName(CategoryName(code)) == Some(code)
  {
    TablesAreInverse();
    assert PadStart(code, 2) == code;
  }

  /** Every name maps to a code that names it. */
  lemma NameRoundTrip(name: string)
    requires name in NameToCode
    ensures CategoryCodeFromName(name).Some?
    ensures CategoryCodeFromName(name).value in Codes
    ensures CategoryName(CategoryCodeFromName(name).value) == name
  {
    CodeFromNameSound(name);
    var code := CategoryCodeFromName(name).value;
    CodeKeys();
    assert PadStart(code, 2) == code;
  }

  /** A one-character code is read with a leading zero. */
  lemma ShortCodeExample()
    ensures CategoryName("4") == "Fantasy"
  {
    assert PadStart("4", 2) == "04";
  }

  /** A code past the sixteen is "Unknown". */
  lemma UnknownCodeExample()
    ensures CategoryName("17") == UNKNOWN
  {
    assert PadStart("17", 2) == "17";
  }

  /** Padding does not rescue an empty code: it reads as "00". */
  lemma EmptyCodeExample()
    ensures CategoryName("") == UNKNOWN
  {
    assert PadStart("", 2) == "00";
  }

  /** Padding does not shorten an over-long code. */
  lemma LongCodeExample()
    ensures CategoryName("004") == UNKNOWN
  {
    assert PadStart("004", 2) == "004";
  }

  /** The code of "Fantasy" is "04". */
  lemma FantasyCode()
    ensures CategoryCodeFromName("Fantasy") == Some("04")
  {
  }

  /** Names must match exactly: a different letter case is not recognised. */
  lemma NameExamples()
    ensures CategoryCodeFromName("fiction") == None && CategoryCodeFromName("Fiction") == Some("01")
  {
    LowerCaseNameUnknown();
    FictionCode();
  }

  lemma LowerCaseNameUnknown()
    ensures CategoryCodeFromName("fiction") == None
  {
  }

  lemma FictionCode()
    ensures CategoryCodeFromName("Fiction") == Some("01")
  {
  }
}
