/** The admin's password-request panel: the status filter over the fetched
    requests, the badge colour, icon and label shown for a status, which
    requests offer approve and reject buttons, and the rejection-reason
    prompt. */
module PasswordRequestManagement {
  import opened Common
  import opened PasswordRequestModel
  import PasswordRequestController

  /** A request as the panel receives it; `status` is the stored status name,
      or "" when absent. */
  datatype RequestRow = RequestRow(id: Id, studentName: string, status: string)

  /** `filteredRequests`: no status selected keeps every request, otherwise
      exactly those with the selected status, in the order received. */
  function FilteredRequests(requests: seq<RequestRow>, filterStatus: string): (r: seq<RequestRow>)
    ensures filterStatus == "" ==> r == requests
    ensures forall i :: 0 <= i < |r| ==> r[i] in requests && (filterStatus == "" || r[i].status == filterStatus)
    ensures forall i :: 0 <= i < |requests| && (filterStatus == "" || requests[i].status == filterStatus)
              ==> requests[i] in r
  {
    var keep := (q: RequestRow) => filterStatus == "" || q.status == filterStatus;
    if filterStatus == "" then
      FilterKeepsAll(keep, requests);
      Filter(keep, requests)
    else
      Filter(keep, requests)
  }

  /** Filtering twice by the same status is filtering once. */
  lemma FilterIdempotent(requests: seq<RequestRow>, filterStatus: string)
    ensures FilteredRequests(FilteredRequests(requests, filterStatus), filterStatus)
            == FilteredRequests(requests, filterStatus)
  {
    var once := FilteredRequests(requests, filterStatus);
    FilterKeepsAll((q: RequestRow) => filterStatus == "" || q.status == filterStatus, once);
  }

  /** The filter keeps the relative order of the requests it shows. */
  lemma FilterKeepsOrder(a: seq<RequestRow>, b: seq<RequestRow>, filterStatus: string)
    ensures FilteredRequests(a + b, filterStatus) == FilteredRequests(a, filterStatus) + FilteredRequests(b, filterStatus)
  {
    FilterConcat((q: RequestRow) => filterStatus == "" || q.status == filterStatus, a, b);
  }

  // ---------------------------------------------------------------------------
  // Colour, icon and label

  datatype Tone = Yellow | Green | Red | Gray

  /** The Tailwind badge classes of a tone: a light background with dark
      text of the same hue. */
  function Badge(t: Tone): string
  {
    match t
    case Yellow => "bg-yellow-100 text-yellow-800"
    case Green => "bg-green-100 text-green-800"
    case Red => "bg-red-100 text-red-800"
    case Gray => "bg-gray-100 text-gray-800"
  }

  /** Different tones give different badges. */
  lemma BadgesDistinct(a: Tone, b: Tone)
    ensures Badge(a) == Badge(b) <==> a == b
  {
    if a != b {
      assert Badge(a)[5] != Badge(b)[5];
    }
  }

  /** `getStatusColor`: the badge classes for a status name. */
  function StatusColor(status: string): (c: string)
    ensures status == "pending" ==> c == Badge(Yellow)
    ensures status == "approved" ==> c == Badge(Green)
    ensures status == "rejected" ==> c == Badge(Red)
    ensures status !in {"pending", "approved", "rejected"} ==> c == Badge(Gray)
  {
    if status == "pending" then Badge(Yellow)
    else if status == "approved" then Badge(Green)
    else if status == "rejected" then Badge(Red)
    else Badge(Gray)
  }

  datatype Glyph = Clock | CheckCircle | XCircle

  datatype Icon = Icon(glyph: Glyph, tone: Tone)

  /** `getStatusIcon`: a clock for pending (and for anything unknown, in
      gray), a check for approved and a cross for rejected. */
  function StatusIcon(status: string): (i: Icon)
    ensures i.glyph == CheckCircle <==> status == "approved"
    ensures i.glyph == XCircle <==> status == "rejected"
    ensures i.tone == Gray <==> status !in {"pending", "approved", "rejected"}
  {
    if status == "pending" then Icon(Clock, Yellow)
    else if status == "approved" then Icon(CheckCircle, Green)
    else if status == "rejected" then Icon(XCircle, Red)
    else Icon(Clock, Gray)
  }

  /** The icon and the badge next to it always share one tone. */
  lemma IconMatchesBadge(status: string)
    ensures StatusColor(status) == Badge(StatusIcon(status).tone)
  {
  }

  /** Each status the server can store gets its own, non-gray tone. */
  lemma StoredStatusesDistinct(a: Status, b: Status)
    ensures StatusIcon(StatusName(a)).tone != Gray
    ensures StatusIcon(StatusName(a)).tone == StatusIcon(StatusName(b)).tone <==> a == b
  {
  }

  /** `s.charAt(0).toUpperCase() + s.slice(1)`. */
  function Capitalize(s: string): (r: string)
    ensures |r| == |s|
    ensures s != [] ==> r[0] == UpperChar(s[0]) && r[1..] == s[1..]
  {
    if s == [] then [] else [UpperChar(s[0])] + s[1..]
  }

  /** The badge text: the status, or "unknown" when missing, capitalised. */
  function StatusLabel(status: string): (text: string)
    ensures status == "" ==> text == "Unknown"
    ensures status != "" ==> |text| == |status| && text[1..] == status[1..] && text[0] == UpperChar(status[0])
  {
    Capitalize(OrElse(status, "unknown"))
  }

  /** The labels of the three stored statuses. */
  lemma StoredStatusLabels()
    ensures StatusLabel(StatusName(Pending)) == "Pending"
    ensures StatusLabel(StatusName(Approved)) == "Approved"
    ensures StatusLabel(StatusName(Rejected)) == "Rejected"
  {
  }

  // ---------------------------------------------------------------------------
  // Actions

  /** Approve and reject buttons are shown only for pending requests. */
  predicate ActionsOffered(status: string)
  {
    status == "pending"
  }

  /** The buttons are shown exactly for the stored requests on which the
      server's approve and reject can still succeed. */
  lemma ActionsOfferedIffPending(q: PasswordRequest)
    ensures ActionsOffered(StatusName(q.status)) <==> q.status == Pending
  {
  }

  /** `handleReject`'s guard on `prompt`: a cancelled prompt (None) or an
      empty answer sends nothing; otherwise the answer is the reason sent. */
  function RejectReason(answer: Option<string>): (r: Option<string>)
    ensures r.None? <==> answer.None? || answer.value == ""
    ensures r.Some? ==> r == answer && r.value != ""
  {
    if answer.None? || answer.value == "" then None else answer
  }

  /** A reason that the panel sends is the one the server stores: the
      server's default rejection reason never replaces it. */
  lemma SentReasonIsKept(answer: Option<string>)
    requires RejectReason(answer).Some?
    ensures OrElse(RejectReason(answer).value, PasswordRequestController.DefaultRejectReason) == answer.value
  {
  }
}
