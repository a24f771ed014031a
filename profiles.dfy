/**
 * The profile review page (src/pages/ProfilesPage.tsx): what the pending list
 * and the detail modal display, and the rules that decide when a reviewer can
 * approve or reject.
 */
module ProfileReview {
  import opened Optional

  // ------------------------------------------------------------------
  // Data (the shapes of src/types.ts)
  // ------------------------------------------------------------------

  datatype ProfileStatus = Pending | Approved | Published | Rejected | Archived

  datatype ProfileSummary = ProfileSummary(
    id: int,
    serialNumber: Option<string>,
    name: string,
    gender: string,
    age: int,
    workLocation: Option<string>,
    createTime: Option<string>,
    status: ProfileStatus)

  /** The reviewed profile. `expectation` keeps the record's entries in their enumeration order. */
  datatype ProfileDetail = ProfileDetail(
    id: int,
    serialNumber: Option<string>,
    name: string,
    gender: string,
    age: int,
    maritalStatus: Option<string>,
    bodyType: Option<string>,
    hometown: Option<string>,
    workLocation: Option<string>,
    industry: Option<string>,
    constellation: Option<string>,
    mbti: Option<string>,
    comingOutStatus: Option<string>,
    healthCondition: Option<string>,
    housingStatus: Option<string>,
    datingPurpose: Option<string>,
    wantChildren: Option<string>,
    wechatId: Option<string>,
    referredBy: Option<string>,
    expectation: Option<seq<(string, Option<string>)>>,
    photos: Option<seq<string>>,
    status: ProfileStatus,
    createTime: Option<string>)

  /** A text value JavaScript treats as true: present and not empty. */
  predicate Present(v: Option<string>)
  {
    v.Some? && v.value != ""
  }

  predicate StartsWith(s: string, prefix: string)
  {
    |prefix| <= |s| && s[..|prefix|] == prefix
  }

  // ------------------------------------------------------------------
  // Photo URLs
  // ------------------------------------------------------------------

  /**
   * The `src` of a photo: a URL starting with "http" is used as it is, any
   * other one is taken relative to the page's origin. The photo's own path is
   * always the tail of the result.
   */
  function PhotoSrc(url: string, origin: string): (src: string)
    ensures StartsWith(url, "http") ==> src == url
    ensures !StartsWith(url, "http") ==> src == origin + url
    ensures |url| <= |src| && src[|src| - |url|..] == url
    ensures StartsWith(origin, "http") ==> StartsWith(src, "http")
  {
    if StartsWith(url, "http") then url
    else
      assert (origin + url)[|origin|..] == url;
      assert StartsWith(origin, "http") ==> (origin + url)[..4] == origin[..4];
      origin + url
  }

  /** Resolving an already resolved photo URL changes nothing (the origin is an http(s) URL). */
  lemma PhotoSrcIdempotent(url: string, origin: string)
    requires StartsWith(origin, "http")
    ensures PhotoSrc(PhotoSrc(url, origin), origin) == PhotoSrc(url, origin)
  {
  }

  // ------------------------------------------------------------------
  // Listed date
  // ------------------------------------------------------------------

  /** `s.split(' ')[0]`: the longest prefix of `s` without a space. */
  function BeforeFirstSpace(s: string): (r: string)
    ensures |r| <= |s| && r == s[..|r|]
    ensures ' ' !in r
    ensures |r| == |s| || s[|r|] == ' '
  {
    if s == [] || s[0] == ' ' then [] else [s[0]] + BeforeFirstSpace(s[1..])
  }

  /** The date shown in a list row: the creation time up to its first space, nothing when it is missing. */
  function ListedDate(p: ProfileSummary): (d: Option<string>)
    ensures d.Some? <==> p.createTime.Some?
    ensures d.Some? ==> d.value == BeforeFirstSpace(p.createTime.value)
  {
    match p.createTime
    case None => None
    case Some(t) => Some(BeforeFirstSpace(t))
  }

  // ------------------------------------------------------------------
  // Reject guard
  // ------------------------------------------------------------------

  /** The characters `String.prototype.trim` removes: ECMAScript white space and line terminators. */
  const TrimmedChars: set<char> := {
    '\t', '\n', '\U{000B}', '\U{000C}', '\r', ' ', '\U{00A0}', '\U{1680}',
    '\U{2000}', '\U{2001}', '\U{2002}', '\U{2003}', '\U{2004}', '\U{2005}',
    '\U{2006}', '\U{2007}', '\U{2008}', '\U{2009}', '\U{200A}',
    '\U{2028}', '\U{2029}', '\U{202F}', '\U{205F}', '\U{3000}', '\U{FEFF}'}

  predicate IsWhitespace(c: char)
  {
    c in TrimmedChars
  }

  /** `s` with its leading white space removed. */
  function TrimStart(s: string): (r: string)
    ensures |r| <= |s| && r == s[|s| - |r|..]
    ensures r == [] || !IsWhitespace(r[0])
    ensures forall i :: 0 <= i < |s| - |r| ==> IsWhitespace(s[i])
  {
    if s == [] || !IsWhitespace(s[0]) then s else TrimStart(s[1..])
  }

  /** `s` with its trailing white space removed. */
  function TrimEnd(s: string): (r: string)
    ensures |r| <= |s| && r == s[..|r|]
    ensures r == [] || !IsWhitespace(r[|r| - 1])
    ensures forall i :: |r| <= i < |s| ==> IsWhitespace(s[i])
  {
    if s == [] || !IsWhitespace(s[|s| - 1]) then s else TrimEnd(s[..|s| - 1])
  }

  /** `s.trim()`: empty exactly when `s` holds nothing but white space. */
  function Trim(s: string): (r: string)
    ensures r == [] <==> forall i :: 0 <= i < |s| ==> IsWhitespace(s[i])
    ensures r == [] || (!IsWhitespace(r[0]) && !IsWhitespace(r[|r| - 1]))
  {
    var front := TrimStart(s);
    TrimEnd(front)
  }

  /** The confirm button of the reject dialog is enabled only for a reason that is not blank. */
  predicate ConfirmRejectEnabled(reason: string)
    ensures ConfirmRejectEnabled(reason) <==> exists i :: 0 <= i < |reason| && !IsWhitespace(reason[i])
  {
    Trim(reason) != []
  }

  datatype RejectCall = RejectCall(id: int, reason: string)

  /**
   * Confirming the reject dialog (`detail && handleReject(detail.id)`): the
   * backend is asked to reject the open profile, with the reason exactly as
   * typed, only when a profile is open and the reason is not blank.
   */
  function ConfirmReject(detail: Option<ProfileDetail>, reason: string): (call: Option<RejectCall>)
    ensures call.Some? <==> detail.Some? && exists i :: 0 <= i < |reason| && !IsWhitespace(reason[i])
    ensures call.Some? ==> call.value == RejectCall(detail.value.id, reason)
  {
    if detail.None? then None
    else if Trim(reason) == [] then None
    else Some(RejectCall(detail.value.id, reason))
  }

  /**
   * The confirm button and the handler's own guard agree: with a profile open,
   * confirming sends a rejection exactly when the button is enabled.
   */
  lemma ConfirmButtonMatchesGuard(detail: Option<ProfileDetail>, reason: string)
    requires detail.Some?
    ensures ConfirmRejectEnabled(reason) <==> ConfirmReject(detail, reason).Some?
  {
  }

  // ------------------------------------------------------------------
  // Detail modal
  // ------------------------------------------------------------------

  /** The rows of a key/value list that the page keeps: those whose value is present, in order. */
  function FilledRows(entries: seq<(string, Option<string>)>): (rows: seq<(string, string)>)
    ensures |rows| <= |entries|
    ensures forall r :: r in rows ==> r.1 != "" && (r.0, Some(r.1)) in entries
    ensures forall e :: e in entries && Present(e.1) ==> (e.0, e.1.value) in rows
  {
    if entries == [] then []
    else
      (if Present(entries[0].1) then [(entries[0].0, entries[0].1.value)] else [])
      + FilledRows(entries[1..])
  }

  /** Filtering keeps the order: the rows of two lists in sequence are the rows of each, in sequence. */
  lemma {:induction false} FilledRowsConcat(a: seq<(string, Option<string>)>, b: seq<(string, Option<string>)>)
    ensures FilledRows(a + b) == FilledRows(a) + FilledRows(b)
  {
    if a == [] {
      assert a + b == b;
    } else {
      assert (a + b)[0] == a[0];
      assert (a + b)[1..] == a[1..] + b;
      FilledRowsConcat(a[1..], b);
    }
  }

  /** Nothing is dropped when every value is present: the rows keep every label, in its place. */
  lemma {:induction false} FilledRowsAllPresent(entries: seq<(string, Option<string>)>)
    requires forall i :: 0 <= i < |entries| ==> Present(entries[i].1)
    ensures |FilledRows(entries)| == |entries|
    ensures forall i :: 0 <= i < |entries| ==> FilledRows(entries)[i] == (entries[i].0, entries[i].1.value)
  {
    if entries != [] {
      FilledRowsAllPresent(entries[1..]);
    }
  }

  /** The fixed list of the info grid, in its display order. */
  function InfoEntries(d: ProfileDetail): (entries: seq<(string, Option<string>)>)
    ensures |entries| == 14
    ensures forall i, j :: 0 <= i < j < |entries| ==> entries[i].0 != entries[j].0
  {
    [ ("婚姻状况", d.maritalStatus),
      ("体型", d.bodyType),
      ("籍贯", d.hometown),
      ("工作地", d.workLocation),
      ("行业", d.industry),
      ("星座", d.constellation),
      ("MBTI", d.mbti),
      ("出柜状态", d.comingOutStatus),
      ("健康状况", d.healthCondition),
      ("住房", d.housingStatus),
      ("交友目的", d.datingPurpose),
      ("孩子意愿", d.wantChildren),
      ("微信号", d.wechatId),
      ("推荐人", d.referredBy) ]
  }

  /** `Object.values(expectation).some(v => v)` on a present record. */
  predicate ShowExpectation(expectation: Option<seq<(string, Option<string>)>>)
  {
    expectation.Some? && exists i :: 0 <= i < |expectation.value| && Present(expectation.value[i].1)
  }

  /** The expectation block: its non-empty entries, or nothing when no value is filled. */
  function ExpectationRows(expectation: Option<seq<(string, Option<string>)>>): (rows: Option<seq<(string, string)>>)
    ensures rows.Some? <==> ShowExpectation(expectation)
    ensures rows.Some? ==> rows.value != [] && rows.value == FilledRows(expectation.value)
  {
    if ShowExpectation(expectation) then
      var i :| 0 <= i < |expectation.value| && Present(expectation.value[i].1);
      assert expectation.value[i] in expectation.value;
      Some(FilledRows(expectation.value))
    else None
  }

  /** The photo strip: every photo with its resolved URL, in order; nothing when there are none. */
  function PhotoSrcs(photos: Option<seq<string>>, origin: string): (srcs: seq<string>)
    ensures |srcs| == (if photos.Some? then |photos.value| else 0)
    ensures forall i :: 0 <= i < |srcs| ==> srcs[i] == PhotoSrc(photos.value[i], origin)
    ensures StartsWith(origin, "http") ==> forall src :: src in srcs ==> StartsWith(src, "http")
  {
    var urls := if photos.Some? then photos.value else [];
    seq(|urls|, i requires 0 <= i < |urls| => PhotoSrc(urls[i], origin))
  }

  /** What the detail modal shows of a profile. */
  datatype DetailPanel = DetailPanel(
    infoRows: seq<(string, string)>,
    expectationRows: Option<seq<(string, string)>>,
    photoSrcs: seq<string>,
    reviewActions: bool)

  /**
   * The body of the detail modal: the info grid without empty fields, the
   * expectation block only when it has something to list, every photo with a
   * resolved URL, and the approve/reject buttons only for a pending profile.
   */
  function ViewDetail(d: ProfileDetail, origin: string): (p: DetailPanel)
    ensures p.reviewActions <==> d.status == Pending
    ensures p.infoRows == FilledRows(InfoEntries(d))
    ensures forall r :: r in p.infoRows ==> r.1 != "" && (r.0, Some(r.1)) in InfoEntries(d)
    ensures p.expectationRows.Some? <==> ShowExpectation(d.expectation)
    ensures p.expectationRows.Some? ==> p.expectationRows.value != []
    ensures p.expectationRows.Some? ==> p.expectationRows.value == FilledRows(d.expectation.value)
    ensures p.photoSrcs == PhotoSrcs(d.photos, origin)
    ensures |p.photoSrcs| == (if d.photos.Some? then |d.photos.value| else 0)
    ensures StartsWith(origin, "http") ==> forall src :: src in p.photoSrcs ==> StartsWith(src, "http")
  {
    DetailPanel(
      FilledRows(InfoEntries(d)),
      ExpectationRows(d.expectation),
      PhotoSrcs(d.photos, origin),
      d.status == Pending)
  }

  /** A fully filled profile shows all fourteen info rows, in the fixed order. */
  lemma FullProfileShowsEveryInfoRow(d: ProfileDetail, origin: string)
    requires forall i :: 0 <= i < |InfoEntries(d)| ==> Present(InfoEntries(d)[i].1)
    ensures |ViewDetail(d, origin).infoRows| == 14
    ensures forall i :: 0 <= i < 14 ==> ViewDetail(d, origin).infoRows[i].0 == InfoEntries(d)[i].0
  {
    FilledRowsAllPresent(InfoEntries(d));
  }

  /** The modal's state: which profile was clicked and the detail loaded for it. */
  datatype ReviewState = ReviewState(selectedId: Option<int>, detail: Option<ProfileDetail>)

  /** `open={!!selectedId && !!detail}`: an id of 0 counts as no selection. */
  predicate DetailModalOpen(s: ReviewState)
    ensures DetailModalOpen(s) ==> s.detail.Some? && s.selectedId.Some?
  {
    s.selectedId.Some? && s.selectedId.value != 0 && s.detail.Some?
  }

  /** `openDetail`, first step: the clicked id is selected before its detail arrives. */
  function SelectProfile(s: ReviewState, id: int): (t: ReviewState)
    ensures t.selectedId == Some(id) && t.detail == s.detail
  {
    s.(selectedId := Some(id))
  }

  /** `openDetail`, second step: the response's detail (or nothing) is stored. */
  function DetailLoaded(s: ReviewState, detail: Option<ProfileDetail>): (t: ReviewState)
    ensures t.detail == detail && t.selectedId == s.selectedId
  {
    s.(detail := detail)
  }

  /**
   * Opening a profile from the closed modal: nothing shows while the detail
   * is loading, and once it has arrived the modal opens exactly when the id is
   * not 0 (the `!!selectedId` test treats the id 0 as no selection).
   */
  lemma OpenDetailFromClosed(s: ReviewState, id: int, detail: ProfileDetail)
    ensures !DetailModalOpen(SelectProfile(CloseDetail(s), id))
    ensures DetailModalOpen(DetailLoaded(SelectProfile(CloseDetail(s), id), Some(detail))) <==> id != 0
  {
  }

  /** `closeDetail`: both the selection and the loaded detail are cleared, so the modal is closed. */
  function CloseDetail(s: ReviewState): (t: ReviewState)
    ensures t.selectedId.None? && t.detail.None?
    ensures !DetailModalOpen(t)
  {
    ReviewState(None, None)
  }
}
