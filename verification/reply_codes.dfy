/**
 * The reply-code table: the eighteen integer codes a command reply can carry and
 * the human-readable text for each.
 */
module ReplyCodes {
  import opened Wrappers

  const OK: int := 1
  const KO_PARSER_ERROR: int := 2
  const KO_STREAM_ALREADY_EXISTS: int := 3
  const KO_STREAM_DOES_NOT_EXIST: int := 4
  const KO_QUERY_ALREADY_EXISTS: int := 5
  const KO_LISTENER_ALREADY_EXISTS: int := 6
  const KO_GENERAL_ERROR: int := 7
  const KO_COLUMN_ALREADY_EXISTS: int := 8
  const KO_COLUMN_DOES_NOT_EXIST: int := 9
  const KO_LISTENER_DOES_NOT_EXIST: int := 10
  const KO_QUERY_DOES_NOT_EXIST: int := 11
  const KO_STREAM_IS_NOT_USER_DEFINED: int := 12
  const KO_OUTPUTSTREAM_EXISTS_AND_DEFINITION_IS_DIFFERENT: int := 13
  const KO_SAVE2CASSANDRA_STREAM_ALREADY_ENABLED: int := 14
  const KO_SOURCE_STREAM_DOES_NOT_EXIST: int := 15
  const KO_INDEX_STREAM_ALREADY_ENABLED: int := 16
  const KO_STREAM_OPERATION_NOT_ALLOWED: int := 17
  const KO_SAVE2MONGO_STREAM_ALREADY_ENABLED: int := 18

  /** The declared constants, in declaration order. */
  const AllCodes: seq<int> := [
    OK, KO_PARSER_ERROR, KO_STREAM_ALREADY_EXISTS, KO_STREAM_DOES_NOT_EXIST,
    KO_QUERY_ALREADY_EXISTS, KO_LISTENER_ALREADY_EXISTS, KO_GENERAL_ERROR,
    KO_COLUMN_ALREADY_EXISTS, KO_COLUMN_DOES_NOT_EXIST, KO_LISTENER_DOES_NOT_EXIST,
    KO_QUERY_DOES_NOT_EXIST, KO_STREAM_IS_NOT_USER_DEFINED,
    KO_OUTPUTSTREAM_EXISTS_AND_DEFINITION_IS_DIFFERENT,
    KO_SAVE2CASSANDRA_STREAM_ALREADY_ENABLED, KO_SOURCE_STREAM_DOES_NOT_EXIST,
    KO_INDEX_STREAM_ALREADY_ENABLED, KO_STREAM_OPERATION_NOT_ALLOWED,
    KO_SAVE2MONGO_STREAM_ALREADY_ENABLED
  ]

  /** The text returned for any code outside the table (the misspelling is the program's own). */
  const UnknownError: string := "UNKOWN ERROR"

  predicate IsKnownCode(code: int) {
    1 <= code <= 18
  }

  /** The text of the success code. */
  const OkText: string := "OK"

  /** Every failure text is this prefix followed by a code-specific body. */
  const KoPrefix: string := "KO: "

  /** The bodies of the failure texts of codes 2..18, in code order. */
  const KoBodies: seq<string> := [
    "PARSER ERROR",
    "STREAM ALREADY EXISTS",
    "STREAM DOES NOT EXIST ",
    "QUERY ALREADY EXISTS",
    "LISTENER ALREADY EXISTS",
    "GENERAL ERROR",
    "COLUMN ALREADY EXISTS",
    "COLUMN DOES NOT EXIST",
    "LISTENER DOES NOT EXIST",
    "QUERY DOES NOT EXIST",
    "STREAM IS NOT USER_DEFINED",
    "OUTPUT STREAM ALREADY EXISTS AND ITS DEFINITION IS DIFFERENT",
    "SAVE2CASSANDRA IN THIS STREAM IS ALREADY_ENABLED",
    "SOURCE STREAM IN QUERY DOES NOT EXIST",
    "INDEX IN THIS STREAM IS ALREADY_ENABLED",
    "STREAM OPERATION NOT ALLOWED",
    "SAVE2MONGO IN THIS STREAM IS ALREADY_ENABLED"
  ]

  /** The readable text of a reply code; total over all integers (the switch's default case). */
  function ReadableError(code: int): string
  {
    if code == OK then OkText
    else if IsKnownCode(code) then KoPrefix + KoBodies[code - 2]
    else UnknownError
  }

  /**
   * Reads a reply text back to its code: an independent reverse table, used to show
   * that no two codes share a text.
   */
  function CodeOfText(text: string): Option<int>
  {
    if text == OkText then Some(OK)
    else if |KoPrefix| <= |text| && text[..|KoPrefix|] == KoPrefix then CodeOfKoBody(text[|KoPrefix|..])
    else None
  }

  /** The failure code whose text has the given body, keyed first on the body's length. */
  function CodeOfKoBody(body: string): Option<int>
  {
    var n := |body|;
    if n == 12 then
      if body == "PARSER ERROR" then Some(2) else None
    else if n == 13 then
      if body == "GENERAL ERROR" then Some(7) else None
    else if n == 20 then
      if body == "QUERY ALREADY EXISTS" then Some(5)
      else if body == "QUERY DOES NOT EXIST" then Some(11)
      else None
    else if n == 21 then
      if body == "STREAM ALREADY EXISTS" then Some(3)
      else if body == "COLUMN ALREADY EXISTS" then Some(8)
      else if body == "COLUMN DOES NOT EXIST" then Some(9)
      else None
    else if n == 22 then
      if body == "STREAM DOES NOT EXIST " then Some(4) else None
    else if n == 23 then
      if body == "LISTENER ALREADY EXISTS" then Some(6)
      else if body == "LISTENER DOES NOT EXIST" then Some(10)
      else None
    else CodeOfLongKoBody(body)
  }

  /** `CodeOfKoBody` for the bodies longer than 23 characters. */
  function CodeOfLongKoBody(body: string): Option<int>
  {
    var n := |body|;
    if n == 26 then
      if body == "STREAM IS NOT USER_DEFINED" then Some(12) else None
    else if n == 28 then
      if body == "STREAM OPERATION NOT ALLOWED" then Some(17) else None
    else if n == 37 then
      if body == "SOURCE STREAM IN QUERY DOES NOT EXIST" then Some(15) else None
    else if n == 39 then
      if body == "INDEX IN THIS STREAM IS ALREADY_ENABLED" then Some(16) else None
    else if n == 44 then
      if body == "SAVE2MONGO IN THIS STREAM IS ALREADY_ENABLED" then Some(18) else None
    else if n == 48 then
      if body == "SAVE2CASSANDRA IN THIS STREAM IS ALREADY_ENABLED" then Some(14) else None
    else if n == 60 then
      if body == "OUTPUT STREAM ALREADY EXISTS AND ITS DEFINITION IS DIFFERENT" then Some(13)
      else None
    else None
  }

  /** The eighteen constants are exactly 1..18 in declaration order, hence pairwise distinct. */
  lemma CodesAreOneToEighteen()
    ensures |AllCodes| == 18
    ensures forall i :: 0 <= i < |AllCodes| ==> AllCodes[i] == i + 1
    ensures forall i, j :: 0 <= i < j < |AllCodes| ==> AllCodes[i] != AllCodes[j]
  {
  }

  /** Every known code's text reads back to that code; unknown codes read back to nothing. */
  lemma ReadableErrorRoundTrip(code: int)
    ensures CodeOfText(ReadableError(code)) == if IsKnownCode(code) then Some(code) else None
  {
    if !IsKnownCode(code) {
      UnknownTextHasNoCode();
    } else if code != OK {
      var t := ReadableError(code);
      assert t[|KoPrefix|..] == KoBodies[code - 2];
      if code < 10 {
        KoBodyRoundTripLow(code - 2);
      } else {
        KoBodyRoundTripHigh(code - 2);
      }
    }
  }

  /** The bodies of codes 2..9 read back to their codes. */
  lemma KoBodyRoundTripLow(i: int)
    requires 0 <= i < 8
    ensures CodeOfKoBody(KoBodies[i]) == Some(i + 2)
  {
  }

  /** The bodies of codes 10..18 read back to their codes. */
  lemma KoBodyRoundTripHigh(i: int)
    requires 8 <= i < |KoBodies|
    ensures CodeOfKoBody(KoBodies[i]) == Some(i + 2)
  {
  }

  /** The generic text is not the text of any code. */
  lemma UnknownTextHasNoCode()
    ensures CodeOfText(UnknownError) == None
  {
  }

  /** No two codes in the table share a text. */
  lemma ReadableErrorInjective(a: int, b: int)
    requires IsKnownCode(a) && IsKnownCode(b) && a != b
    ensures ReadableError(a) != ReadableError(b)
  {
    ReadableErrorRoundTrip(a);
    ReadableErrorRoundTrip(b);
  }

  /**
   * Code 1 is the only code whose text is "OK"; every failure code's text starts with
   * "KO: "; exactly the codes outside 1..18 get the generic text.
   */
  lemma ReadableErrorShape(code: int)
    ensures code == OK <==> ReadableError(code) == "OK"
    ensures 2 <= code <= 18 ==> "KO: " <= ReadableError(code)
    ensures !IsKnownCode(code) <==> ReadableError(code) == UnknownError
  {
    ReadableErrorRoundTrip(code);
    ReadableErrorRoundTrip(OK);
    UnknownTextHasNoCode();
  }

  /** The text of code 4 keeps its trailing space. */
  lemma StreamDoesNotExistTextKeepsTrailingSpace()
    ensures ReadableError(KO_STREAM_DOES_NOT_EXIST) == "KO: STREAM DOES NOT EXIST "
    ensures ReadableError(KO_STREAM_DOES_NOT_EXIST)[|ReadableError(KO_STREAM_DOES_NOT_EXIST)| - 1] == ' '
  {
  }
}
