/** Space-separated MIME lists, as OSC 72 payloads carry them. */
module DndMimes {
  import opened Bytes
  import opened TransferCommands

  const MAX_DND_MIME_LIST_BYTES := 1024 * 1024
  const MAX_DND_MIME_TYPES := 4096
  const SPACE: byte := 32

  type Mime = seq<byte>

  datatype DndError = InvalidMime | MimeListTooLarge | DropDataTooLarge | NotEnabled | NotAccepted

  /** Printable ASCII other than the space. */
  predicate ValidMime(mime: Mime) {
    mime != [] && forall k :: 0 <= k < |mime| ==> 33 <= mime[k] < 127
  }

  predicate AllValid(mimes: seq<Mime>) {
    forall k :: 0 <= k < |mimes| ==> ValidMime(mimes[k])
  }

  function JoinMimes(mimes: seq<Mime>): seq<byte> {
    if mimes == [] then []
    else if |mimes| == 1 then mimes[0]
    else JoinMimes(mimes[..|mimes| - 1]) + [SPACE] + mimes[|mimes| - 1]
  }

  /** The size of the list as it is added up: each type, and a separator before all but the first. */
  function AddUp(mimes: seq<Mime>): Result<nat, DndError> {
    if mimes == [] then Ok(0) else
      var initial, last := mimes[..|mimes| - 1], mimes[|mimes| - 1];
      match AddUp(initial)
      case Err(error) => Err(error)
      case Ok(size) => if ValidMime(last) then Ok(size + |last| + if size > 0 then 1 else 0) else Err(InvalidMime)
  }

  /** What stands in the way of a list, if anything does. */
  function ValidateMimeList(mimes: seq<Mime>): Option<DndError> {
    if |mimes| > MAX_DND_MIME_TYPES then Some(MimeListTooLarge) else
      match AddUp(mimes)
      case Err(error) => Some(error)
      case Ok(total) => if total > MAX_DND_MIME_LIST_BYTES then Some(MimeListTooLarge) else None
  }

  predicate ValidMimeList(mimes: seq<Mime>) {
    |mimes| <= MAX_DND_MIME_TYPES && AllValid(mimes) && |JoinMimes(mimes)| <= MAX_DND_MIME_LIST_BYTES
  }

  /** The sum is taken of valid types only, and is the length of the joined list. */
  lemma {:induction false} AddedUpIsJoined(mimes: seq<Mime>)
    ensures AddUp(mimes) == if AllValid(mimes) then Ok(|JoinMimes(mimes)|) else Err(InvalidMime)
    ensures AllValid(mimes) ==> (JoinMimes(mimes) == [] <==> mimes == [])
    decreases |mimes|
  {
    hide ValidMime;
    if mimes != [] {
      var initial, last := mimes[..|mimes| - 1], mimes[|mimes| - 1];
      AddedUpIsJoined(initial);
      NeverEmpty(last);
      AllValidSnoc(mimes);
    }
  }

  lemma NeverEmpty(mime: Mime)
    ensures ValidMime(mime) ==> mime != []
  {}

  lemma AllValidSnoc(mimes: seq<Mime>)
    requires mimes != []
    ensures AllValid(mimes) <==> AllValid(mimes[..|mimes| - 1]) && ValidMime(mimes[|mimes| - 1])
  {}

  /** A list is accepted exactly when its types are valid, few enough, and short enough when joined. */
  lemma ValidationIsExact(mimes: seq<Mime>)
    ensures ValidateMimeList(mimes) == None <==> ValidMimeList(mimes)
    ensures ValidateMimeList(mimes) == Some(InvalidMime) <==> |mimes| <= MAX_DND_MIME_TYPES && !AllValid(mimes)
  {
    hide ValidMime, AllValid, JoinMimes, AddUp;
    AddedUpIsJoined(mimes);
  }

  function NonEmpty(parts: seq<Mime>): seq<Mime> {
    if parts == [] then [] else
      var last := parts[|parts| - 1];
      NonEmpty(parts[..|parts| - 1]) + if last == [] then [] else [last]
  }

  function Words(payload: seq<byte>): seq<Mime> {
    NonEmpty(Split(payload, SPACE))
  }

  /** A payload is a list of types between spaces; payloads that are not UTF-8 hold no valid type. */
  function ParseMimePayload(payload: seq<byte>): Option<seq<Mime>> {
    var mimes := Words(payload);
    if ValidateMimeList(mimes).None? then Some(mimes) else None
  }

  /* ---- Parsing undoes joining ---- */

  lemma NonEmptySnoc(parts: seq<Mime>, last: Mime)
    ensures NonEmpty(parts + [last]) == NonEmpty(parts) + if last == [] then [] else [last]
  {}

  lemma NoSpace(mime: Mime)
    requires ValidMime(mime)
    ensures SPACE !in mime && mime != []
  {}

  lemma {:induction false} WordsOfJoined(mimes: seq<Mime>)
    requires AllValid(mimes)
    ensures Words(JoinMimes(mimes)) == mimes
    decreases |mimes|
  {
    hide ValidMime, Split;
    if mimes == [] {
      SplitWhole([], SPACE);
      NonEmptySnoc([], []);
      assert NonEmpty([]) == [];
    } else {
      var initial, last := mimes[..|mimes| - 1], mimes[|mimes| - 1];
      NoSpace(last);
      SplitWhole(last, SPACE);
      if initial == [] {
        NonEmptySnoc([], last);
        assert mimes == [last];
      } else {
        WordsOfJoined(initial);
        SplitAt(JoinMimes(initial), SPACE, last);
        NonEmptySnoc(Split(JoinMimes(initial), SPACE), last);
      }
    }
  }

  lemma {:induction false} NonEmptyAppend(parts: seq<Mime>, more: seq<Mime>)
    ensures NonEmpty(parts + more) == NonEmpty(parts) + NonEmpty(more)
    decreases |more|
  {
    if more == [] {
      assert parts + more == parts;
    } else {
      NonEmptyAppend(parts, more[..|more| - 1]);
      assert (parts + more)[..|parts + more| - 1] == parts + more[..|more| - 1];
    }
  }

  /** Words are what lies between spaces, however many there are; these three rules decide every payload. */
  lemma WordsAre(payload: seq<byte>, more: seq<byte>)
    ensures Words([]) == []
    ensures SPACE !in payload && payload != [] ==> Words(payload) == [payload]
    ensures Words(payload + [SPACE] + more) == Words(payload) + Words(more)
  {
    hide NonEmpty, Split;
    NonEmptySnoc([], []);
    NonEmptySnoc([], payload);
    var nothing: seq<Mime> := [];
    assert nothing + [payload] == [payload] && nothing + [[]] == [[]];
    SplitWhole([], SPACE);
    if SPACE !in payload {
      SplitWhole(payload, SPACE);
    }
    SplitAt(payload, SPACE, more);
    NonEmptyAppend(Split(payload, SPACE), Split(more, SPACE));
    NothingIsEmpty();
  }

  lemma NothingIsEmpty()
    ensures NonEmpty([]) == []
  {}

  /** A payload is read as its words when they are a valid list, and not at all otherwise. */
  lemma ParsedIff(payload: seq<byte>)
    ensures ParseMimePayload(payload) == if ValidMimeList(Words(payload)) then Some(Words(payload)) else None
  {
    hide ValidMimeList, Words, ValidateMimeList;
    ValidationIsExact(Words(payload));
  }

  /** Parsing undoes joining on every valid list, and yields nothing but valid lists. */
  lemma ParseUndoesJoin(mimes: seq<Mime>)
    ensures ValidMimeList(mimes) ==> ParseMimePayload(JoinMimes(mimes)) == Some(mimes)
  {
    hide ValidMime, AllValid, JoinMimes, Words, ValidateMimeList;
    if ValidMimeList(mimes) {
      WordsOfJoined(mimes);
      ValidationIsExact(mimes);
    }
  }

  lemma ParsedIsValid(payload: seq<byte>)
    ensures ParseMimePayload(payload).Some? ==>
              ValidMimeList(ParseMimePayload(payload).value)
              && ParseMimePayload(JoinMimes(ParseMimePayload(payload).value)) == ParseMimePayload(payload)
  {
    hide ValidMimeList, Words, JoinMimes, ValidateMimeList;
    ValidationIsExact(Words(payload));
    ParseUndoesJoin(Words(payload));
  }
}
