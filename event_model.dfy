/** The Event schema (server/src/models/Event.js): a time slot owned by one user.
    Times are opaque values: nothing in the core compares them. */
module EventModel {
  import opened Wrappers

  type UserId = nat
  type EventId = nat
  type Time = int

  /** The closed status set of a slot. */
  datatype Status = Busy | Swappable | SwapPending

  /** The names the schema's enum accepts, in the order it lists them. */
  const StatusNames: seq<string> := ["BUSY", "SWAPPABLE", "SWAP_PENDING"]

  /** The status a document gets when none is supplied. */
  const DefaultStatus: Status := Busy

  function StatusName(s: Status): string
  {
    match s
    case Busy => "BUSY"
    case Swappable => "SWAPPABLE"
    case SwapPending => "SWAP_PENDING"
  }

  /** Reads a status string the way the schema's enum validator judges it. */
  function ParseStatus(name: string): (r: Option<Status>)
    ensures r.Some? <==> name in StatusNames
    ensures r.Some? ==> StatusName(r.value) == name
  {
    if name == "BUSY" then Some(Busy)
    else if name == "SWAPPABLE" then Some(Swappable)
    else if name == "SWAP_PENDING" then Some(SwapPending)
    else None
  }

  /** Every status has a name in the enum, and reading that name gives the status back. */
  lemma StatusNameRoundTrip(s: Status)
    ensures StatusName(s) in StatusNames
    ensures ParseStatus(StatusName(s)) == Some(s)
  {
  }

  /** A stored slot. The schema's createdAt default (Date.now) is not modelled. */
  datatype Event = Event(userId: UserId, title: string, startTime: Time, endTime: Time, status: Status)

  // ---------------------------------------------------------------------------
  // The `trim` option on the title: JavaScript's String.prototype.trim.

  /** The white-space and line-terminator code points that trim strips. */
  predicate IsWhitespace(c: char)
  {
    ('\U{9}' <= c <= '\U{D}') || c == ' ' || c == '\U{A0}' || c == '\U{1680}'
    || ('\U{2000}' <= c <= '\U{200A}') || c == '\U{2028}' || c == '\U{2029}'
    || c == '\U{202F}' || c == '\U{205F}' || c == '\U{3000}' || c == '\U{FEFF}'
  }

  predicate AllWhitespace(s: string)
  {
    forall k :: 0 <= k < |s| ==> IsWhitespace(s[k])
  }

  /** Neither end of the string is white space. */
  predicate Stripped(s: string)
  {
    s == [] || (!IsWhitespace(s[0]) && !IsWhitespace(s[|s| - 1]))
  }

  /** The index of the first character that is not white space. */
  function TextStart(s: string): (i: nat)
    ensures i <= |s|
    ensures AllWhitespace(s[..i])
    ensures i < |s| ==> !IsWhitespace(s[i])
  {
    if s == [] || !IsWhitespace(s[0]) then 0
    else
      var i := 1 + TextStart(s[1..]);
      assert s[..i] == [s[0]] + s[1..][..i - 1];
      i
  }

  /** One past the index of the last character that is not white space. */
  function TextEnd(s: string): (j: nat)
    ensures j <= |s|
    ensures AllWhitespace(s[j..])
    ensures 0 < j ==> !IsWhitespace(s[j - 1])
  {
    if s == [] || !IsWhitespace(s[|s| - 1]) then |s|
    else
      var p := s[..|s| - 1];
      var j := TextEnd(p);
      assert s[j..] == p[j..] + [s[|s| - 1]];
      j
  }

  /** `t` is `s` with some white space, and only white space, cut from each end. */
  ghost predicate Padded(s: string, t: string)
  {
    exists i :: 0 <= i <= |s| - |t| && s[i..i + |t|] == t
      && AllWhitespace(s[..i]) && AllWhitespace(s[i + |t|..])
  }

  function Trim(s: string): (t: string)
    ensures Stripped(t)
    ensures Padded(s, t)
  {
    var i := TextStart(s);
    var rest := s[i..];
    var j := TextEnd(rest);
    var t := rest[..j];
    assert s[i..i + |t|] == t && s[i + |t|..] == rest[j..];
    assert t != [] ==> t[0] == s[i] && t[|t| - 1] == rest[j - 1];
    t
  }

  /** The first character that is not white space is at `i`. */
  lemma {:induction false} TextStartAt(s: string, i: nat)
    requires i <= |s| && AllWhitespace(s[..i])
    requires i < |s| ==> !IsWhitespace(s[i])
    ensures TextStart(s) == i
  {
    if i > 0 {
      assert s[..i][0] == s[0];
      assert s[1..][..i - 1] == s[..i][1..];
      assert i - 1 < |s| - 1 ==> s[1..][i - 1] == s[i];
      TextStartAt(s[1..], i - 1);
    }
  }

  /** The last character that is not white space is just before `j`. */
  lemma {:induction false} TextEndAt(s: string, j: nat)
    requires j <= |s| && AllWhitespace(s[j..])
    requires 0 < j ==> !IsWhitespace(s[j - 1])
    ensures TextEnd(s) == j
  {
    if j < |s| {
      var p := s[..|s| - 1];
      assert s[j..][|s| - 1 - j] == s[|s| - 1];
      assert p[j..] == s[j..][..|s| - 1 - j];
      assert 0 < j ==> p[j - 1] == s[j - 1];
      TextEndAt(p, j);
    }
  }

  /** A string of only white space trims to the empty string. */
  lemma TrimOfBlank(s: string)
    requires AllWhitespace(s)
    ensures Trim(s) == []
  {
    assert s[..|s|] == s;
    TextStartAt(s, |s|);
  }

  /** Trimming a padding of a non-empty stripped text, whose text starts at `i`. */
  lemma TrimOfPaddedAt(s: string, t: string, i: nat)
    requires t != [] && Stripped(t)
    requires i <= |s| - |t| && s[i..i + |t|] == t && AllWhitespace(s[..i]) && AllWhitespace(s[i + |t|..])
    ensures Trim(s) == t
  {
    assert s[i] == t[0];
    TextStartAt(s, i);
    var rest := s[i..];
    assert rest[|t|..] == s[i + |t|..] && rest[|t| - 1] == t[|t| - 1];
    TextEndAt(rest, |t|);
    assert rest[..|t|] == t;
  }

  /** Trimming recovers the text from any white-space padding of it: the
      result of trim is the unique stripped string that `s` pads. */
  lemma TrimOfPadded(s: string, t: string)
    requires Padded(s, t)
    requires Stripped(t)
    ensures Trim(s) == t
  {
    var i :| 0 <= i <= |s| - |t| && s[i..i + |t|] == t && AllWhitespace(s[..i]) && AllWhitespace(s[i + |t|..]);
    if t == [] {
      forall k | 0 <= k < |s| ensures IsWhitespace(s[k]) {
        if k < i { assert s[..i][k] == s[k]; } else { assert s[i..][k - i] == s[k]; }
      }
      TrimOfBlank(s);
    } else {
      TrimOfPaddedAt(s, t, i);
    }
  }

  /** A stripped string pads itself. */
  lemma PaddedSelf(t: string)
    ensures Padded(t, t)
  {
    assert t[0..0 + |t|] == t && t[..0] == [] && t[|t|..] == [];
  }

  /** Trimming twice is trimming once. */
  lemma TrimIdempotent(s: string)
    ensures Trim(Trim(s)) == Trim(s)
  {
    PaddedSelf(Trim(s));
    TrimOfPadded(Trim(s), Trim(s));
  }

  // ---------------------------------------------------------------------------
  // Document construction and validation (new Event({...}) followed by save()).

  /** Mongoose's default message for a missing required path. */
  function RequiredMessage(path: string): string
  {
    "Path `" + path + "` is required."
  }

  /** Mongoose's default message for a string outside an enum. */
  function EnumMessage(value: string, path: string): string
  {
    "`" + value + "` is not a valid enum value for path `" + path + "`."
  }

  /** One failing path of a Mongoose ValidationError, with its message. */
  datatype PathError = PathError(path: string, message: string)

  /** The failing paths of a new document with their messages, in schema order;
      none when it is valid. */
  function ValidationErrors(title: Option<string>, startTime: Option<Time>, endTime: Option<Time>,
                            status: Option<string>): seq<PathError>
  {
    (if title.None? || Trim(title.value) == [] then [PathError("title", RequiredMessage("title"))] else [])
    + (if startTime.None? then [PathError("startTime", RequiredMessage("startTime"))] else [])
    + (if endTime.None? then [PathError("endTime", RequiredMessage("endTime"))] else [])
    + (if status.Some? && ParseStatus(status.value).None?
       then [PathError("status", EnumMessage(status.value, "status"))] else [])
  }

  /** What a stored slot always satisfies when it went through validation:
      a non-empty title, stored trimmed. */
  predicate Validated(e: Event)
  {
    e.title != [] && Trim(e.title) == e.title
  }

  /** Builds and validates a new Event document owned by `owner`; absent fields are None.
      Fails with the failing paths and their messages. */
  function NewEvent(owner: UserId, title: Option<string>, startTime: Option<Time>, endTime: Option<Time>,
                    status: Option<string>): (r: Result<Event, seq<PathError>>)
    ensures r.Failure? <==> (title.None? || Trim(title.value) == [] || startTime.None? || endTime.None?
                         || (status.Some? && status.value !in StatusNames))
    ensures r.Failure? ==> |r.error| > 0 && r.error[0].message != []
    ensures r.Success? ==>
              && Validated(r.value) && r.value.userId == owner
              && Padded(title.value, r.value.title)
              && r.value.startTime == startTime.value && r.value.endTime == endTime.value
              && StatusName(r.value.status) == (if status.None? then "BUSY" else status.value)
  {
    var errors := ValidationErrors(title, startTime, endTime, status);
    if errors != [] then Failure(errors)
    else
      var t := Trim(title.value);
      TrimIdempotent(title.value);
      Success(Event(owner, t, startTime.value, endTime.value,
               if status.None? then DefaultStatus else ParseStatus(status.value).value))
  }

  /** What `save()` reports for a document read from the collection. Saving
      runs the schema's validators on every path again, not only on the modified
      ones, and no setter runs. All paths of a stored event are present and its
      status is in the enum, so only title's required validator can fail: on
      the empty title an update may have stored. */
  function SaveErrors(e: Event): (errors: seq<PathError>)
    ensures errors == [] <==> e.title != []
  {
    if e.title == [] then [PathError("title", RequiredMessage("title"))] else []
  }

  /** `save()` accepts the document. */
  predicate Savable(e: Event)
  {
    SaveErrors(e) == []
  }

  /** On a stored (trimmed) title, saving judges the document as creating it
      from the same fields would. */
  lemma SaveErrorsAgree(e: Event)
    requires Trim(e.title) == e.title
    ensures SaveErrors(e) == ValidationErrors(Some(e.title), Some(e.startTime), Some(e.endTime),
                                              Some(StatusName(e.status)))
  {
    StatusNameRoundTrip(e.status);
  }

  /** A document built without a status gets BUSY. */
  lemma NewEventDefaultStatus(owner: UserId, title: string, startTime: Time, endTime: Time)
    requires Trim(title) != []
    ensures NewEvent(owner, Some(title), Some(startTime), Some(endTime), None) ==
            Success(Event(owner, Trim(title), startTime, endTime, Busy))
  {
  }
}
