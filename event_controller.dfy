/**
 * The two request handlers: the mock score endpoint and the
 * liveness-update endpoint. Both validate their input first and answer
 * 400 without touching anything when it is missing or empty.
 */
module Controller {
  import opened Wrappers
  import opened Dto
  import opened Service

  /** The HTTP statuses the handlers answer with. */
  datatype Status = Ok | BadRequest {
    function Code(): (code: int)
      ensures code == 200 <==> this == Ok
      ensures code == 400 <==> this == BadRequest
    {
      match this
      case Ok => 200
      case BadRequest => 400
    }
  }

  /** A response: its status and, possibly, a body. */
  datatype Response<T> = Response(status: Status, body: Option<T>)

  predicate IsDigit(c: char) {
    '0' <= c <= '9'
  }

  function DigitChar(d: nat): (c: char)
    requires d < 10
    ensures IsDigit(c)
  {
    ('0' as int + d) as char
  }

  /** The decimal text of a non-negative int, as Java's string concatenation writes it. */
  function NatToString(n: nat): (s: string)
    ensures |s| >= 1
    ensures forall i :: 0 <= i < |s| ==> IsDigit(s[i])
    ensures n < 10 ==> s == [DigitChar(n)]
    decreases n
  {
    if n < 10 then [DigitChar(n)]
    else NatToString(n / 10) + [DigitChar(n % 10)]
  }

  /** Reads a non-empty string of decimal digits back as a number; anything else gives None. */
  function ParseNat(s: string): Option<nat>
    decreases |s|
  {
    if |s| == 0 || !IsDigit(s[|s| - 1]) then None
    else
      var d := (s[|s| - 1] as int) - ('0' as int);
      if |s| == 1 then Some(d)
      else match ParseNat(s[..|s| - 1])
        case None => None
        case Some(v) => Some(10 * v + d)
  }

  /** Reading back the decimal text of a number gives the number. */
  lemma {:induction false} ParseNatToString(n: nat)
    ensures ParseNat(NatToString(n)) == Some(n)
    decreases n
  {
    if n >= 10 {
      var prefix := NatToString(n / 10);
      var s := prefix + [DigitChar(n % 10)];
      assert s[..|s| - 1] == prefix;
      ParseNatToString(n / 10);
    }
  }

  /** The score text for draws `home` and `away`: the two numbers joined by ':'. */
  function Score(home: nat, away: nat): (score: string)
    ensures home < 10 && away < 10 ==>
      |score| == 3 && score[0] == DigitChar(home) && score[1] == ':' && score[2] == DigitChar(away)
  {
    NatToString(home) + ":" + NatToString(away)
  }

  /** The position of the first `c` in `s`, if any. */
  function IndexOf(s: string, c: char): (r: Option<nat>)
    ensures r.Some? ==> r.value < |s| && s[r.value] == c && forall j :: 0 <= j < r.value ==> s[j] != c
    ensures r.None? ==> forall j :: 0 <= j < |s| ==> s[j] != c
    decreases |s|
  {
    if |s| == 0 then None
    else if s[0] == c then Some(0)
    else match IndexOf(s[1..], c)
      case None => None
      case Some(i) => Some(i + 1)
  }

  /** Splits a score at its first ':' and reads both halves as numbers. */
  function SplitScore(score: string): Option<(nat, nat)>
  {
    match IndexOf(score, ':')
    case None => None
    case Some(i) =>
      match (ParseNat(score[..i]), ParseNat(score[i + 1..]))
      case (Some(home), Some(away)) => Some((home, away))
      case _ => None
  }

  /** Splitting a score at ':' gives back the two draws it was built from. */
  lemma ScoreRoundTrip(home: nat, away: nat)
    ensures SplitScore(Score(home, away)) == Some((home, away))
  {
    var h, a := NatToString(home), NatToString(away);
    var s := Score(home, away);
    assert s == h + [':'] + a;
    assert s[|h|] == ':';
    forall j | 0 <= j < |h| ensures s[j] != ':' {
      assert s[j] == h[j];
    }
    assert IndexOf(s, ':') == Some(|h|);
    assert s[..|h|] == h;
    assert s[|h| + 1..] == a;
    ParseNatToString(home);
    ParseNatToString(away);
  }

  /**
   * The mock score endpoint. `home` and `away` are the two draws of
   * nextInt(5). A null or empty id is refused with 400 and no body;
   * otherwise 200 with the id and the score.
   */
  function GetMockEventData(eventId: Option<string>, home: nat, away: nat): (r: Response<MockApiResponse>)
    requires home < 5 && away < 5
    ensures r.status == BadRequest <==> eventId == None || eventId.value == ""
    ensures r.status == BadRequest ==> r.body == None
    ensures r.status == Ok ==>
      && r.body.Some?
      && r.body.value.eventId == eventId.value
      && |r.body.value.currentScore| == 3
      && r.body.value.currentScore[1] == ':'
      && SplitScore(r.body.value.currentScore) == Some((home, away))
  {
    if eventId == None || eventId.value == "" then
      Response(BadRequest, None)
    else
      ScoreRoundTrip(home, away);
      Response(Ok, Some(MockApiResponse(eventId.value, Score(home, away))))
  }

  /**
   * The store write a liveness-update request asks for, or None when it
   * fails validation: the body is missing, or its id is missing or empty.
   */
  function ValidateStatusUpdate(request: Option<EventStatusUpdate>): (write: Option<(string, bool)>)
    ensures write.Some? <==>
      request.Some? && request.value.eventId.Some? && request.value.eventId.value != ""
    ensures write.Some? ==>
      |write.value.0| > 0 && write.value == (request.value.eventId.value, request.value.isLive)
  {
    match request
    case None => None
    case Some(EventStatusUpdate(eventId, isLive)) =>
      match eventId
      case None => None
      case Some(id) => if id == "" then None else Some((id, isLive))
  }

  /** The handler object; its one collaborator is the store it updates. */
  class EventController {
    const eventService: EventService

    constructor (eventService: EventService)
      ensures this.eventService == eventService
    {
      this.eventService := eventService;
    }

    /**
     * The liveness-update endpoint. A missing body, or a missing or empty
     * id, answers 400 and leaves the store untouched; otherwise the store
     * receives exactly one update and the answer is 200.
     */
    method UpdateEventStatus(request: Option<EventStatusUpdate>) returns (status: Status)
      requires eventService.Valid()
      modifies eventService
      ensures eventService.Valid()
      ensures status == Ok <==> ValidateStatusUpdate(request).Some?
      ensures status == BadRequest ==>
        eventService.eventStatuses == old(eventService.eventStatuses) &&
        eventService.updates == old(eventService.updates)
      ensures status == Ok ==>
        var write := ValidateStatusUpdate(request).value;
        eventService.updates == old(eventService.updates) + [write] &&
        eventService.eventStatuses == old(eventService.eventStatuses)[write.0 := write.1]
    {
      if request == None {
        return BadRequest;
      }
      var eventId := request.value.eventId;
      var isLive := request.value.isLive;
      if eventId == None || eventId.value == "" {
        return BadRequest;
      }
      eventService.UpdateEventStatus(eventId.value, isLive);
      status := Ok;
    }
  }
}
