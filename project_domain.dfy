/** Project-side entities: projects with their recruitments and bookmarks,
    membership records, application ("tryout") records with their status
    state machine, and the joined tryout read model. Timestamps are integers;
    the clock is passed in. */
module ProjectDomain {
  import opened Common

  datatype TryoutStatus = InReview | Accepted | Rejected

  datatype Recruitment = Recruitment(jobName: string, numberOfRecruitment: int)

  datatype Bookmark = Bookmark(userId: string, createdAt: int)

  /** A stored project. `id` is the hex form of its object identifier;
      `bookmarkers` is `None` when the stored document has no such array. */
  datatype Project = Project(
    id: string,
    userId: string,
    title: string,
    thumbNailUrl: Option<string>,
    description: string,
    recruitments: seq<Recruitment>,
    bookmarkers: Option<seq<Bookmark>>,
    isCompleted: bool,
    createdAt: int,
    updatedAt: int)

  /** A stored membership record; `projectId` is a foreign key kept as a string. */
  datatype ProjectMember = ProjectMember(
    id: Option<string>,
    resumeId: Option<string>,
    tryoutId: Option<string>,
    userId: string,
    userName: string,
    userThumbnail: Option<string>,
    userSelfDescription: Option<string>,
    positionName: Option<string>,
    projectId: string,
    createdAt: int)

  /** A stored application document as the tryout collection holds it. The
      document may carry a `userProfileImageUrl`, which the joined read model
      reads; a document written from `ProjectTryout` has none. */
  datatype TryoutDoc = TryoutDoc(
    id: Option<string>,
    resumeId: string,
    userId: string,
    userName: string,
    userSelfDescription: string,
    userProfileImageUrl: Option<string>,
    positionName: string,
    tryoutStatus: TryoutStatus,
    projectId: string,
    createdAt: int)

  /** The flat read model the tryout join produces. */
  datatype ProjectWithProjectTryout = ProjectWithProjectTryout(
    id: string,
    projectCreatedBy: string,
    title: string,
    thumbNailUrl: Option<string>,
    description: string,
    isCompleted: bool,
    resumeId: string,
    userId: string,
    userName: string,
    userSelfDescription: string,
    userProfileImageUrl: Option<string>,
    positionName: string,
    tryoutStatus: TryoutStatus)

  /** The status a tryout in status `current` gets when asked to move to
      `requested`, or the error the request fails with: a change is allowed
      only while the tryout is in review. */
  function StatusTransition(current: TryoutStatus, requested: TryoutStatus): (r: Result<TryoutStatus>)
    ensures r.Ok? <==> current == InReview
    ensures r.Ok? ==> r.value == requested
    ensures r.Err? ==> r.code == ProjectTryoutStatusUpdateFail
  {
    if current == InReview then Ok(requested) else Err(ProjectTryoutStatusUpdateFail)
  }

  /** An application; only `tryoutStatus` (and the identifier the store
      assigns) change after creation. */
  class ProjectTryout {
    var id: Option<string>
    const resumeId: string
    const userId: string
    const userName: string
    const userSelfDescription: string
    const positionName: string
    var tryoutStatus: TryoutStatus
    const projectId: string
    const createdAt: int

    constructor (id: Option<string>, resumeId: string, userId: string, userName: string,
                 userSelfDescription: string, positionName: string,
                 tryoutStatus: TryoutStatus, projectId: string, createdAt: int)
      ensures this.id == id && this.resumeId == resumeId && this.userId == userId
      ensures this.userName == userName && this.userSelfDescription == userSelfDescription
      ensures this.positionName == positionName && this.tryoutStatus == tryoutStatus
      ensures this.projectId == projectId && this.createdAt == createdAt
    {
      this.id := id;
      this.resumeId := resumeId;
      this.userId := userId;
      this.userName := userName;
      this.userSelfDescription := userSelfDescription;
      this.positionName := positionName;
      this.tryoutStatus := tryoutStatus;
      this.projectId := projectId;
      this.createdAt := createdAt;
    }

    /** Moves the tryout to `requested` if it is in review; otherwise fails
        with PROJECT_TRYOUT_STATUS_UPDATE_FAIL and changes nothing. Only the
        status field is in the frame. */
    method UpdateStatus(requested: TryoutStatus) returns (outcome: Outcome)
      modifies this`tryoutStatus
      ensures old(tryoutStatus) == InReview ==> outcome == Pass && tryoutStatus == requested
      ensures old(tryoutStatus) != InReview ==>
                outcome == Fail(ProjectTryoutStatusUpdateFail) && tryoutStatus == old(tryoutStatus)
      ensures match StatusTransition(old(tryoutStatus), requested)
              case Ok(s) => outcome == Pass && tryoutStatus == s
              case Err(e) => outcome == Fail(e) && tryoutStatus == old(tryoutStatus)
    {
      if tryoutStatus == InReview {
        tryoutStatus := requested;
        outcome := Pass;
      } else {
        outcome := Fail(ProjectTryoutStatusUpdateFail);
      }
    }

    /** The membership record an accepted application becomes, stamped with
        the clock reading `now`. The tryout itself is not changed. */
    function CreateProjectMember(now: int): (m: ProjectMember)
      ensures m.resumeId == Some(resumeId) && m.userId == userId && m.userName == userName
      ensures m.userSelfDescription == Some(userSelfDescription) && m.projectId == projectId
      ensures m.createdAt == now
      ensures m.id.None? && m.tryoutId.None? && m.positionName.None? && m.userThumbnail.None?
    {
      ProjectMember(None, Some(resumeId), None, userId, userName, None,
                    Some(userSelfDescription), None, projectId, now)
    }

    /** The document the tryout collection stores for this application. */
    function ToDoc(): (d: TryoutDoc)
      reads this
      ensures d.tryoutStatus == tryoutStatus && d.id == id && d.userProfileImageUrl.None?
      ensures d.userId == userId && d.projectId == projectId && d.createdAt == createdAt
      ensures d.resumeId == resumeId && d.userName == userName
      ensures d.userSelfDescription == userSelfDescription && d.positionName == positionName
    {
      TryoutDoc(id, resumeId, userId, userName, userSelfDescription, None,
                positionName, tryoutStatus, projectId, createdAt)
    }
  }

  /** Outcomes of a series of status update requests applied in order to a
      tryout that starts in `start`: the final status and, per request,
      whether it succeeded. */
  function RunUpdates(start: TryoutStatus, requests: seq<TryoutStatus>): (r: (TryoutStatus, seq<bool>))
    ensures |r.1| == |requests|
    decreases |requests|
  {
    if requests == [] then (start, [])
    else
      match StatusTransition(start, requests[0])
      case Ok(next) =>
        var rest := RunUpdates(next, requests[1..]);
        (rest.0, [true] + rest.1)
      case Err(_) =>
        var rest := RunUpdates(start, requests[1..]);
        (rest.0, [false] + rest.1)
  }

  /** Once a status leaves review, nothing changes it again: every request
      fails and the status stays. */
  lemma {:induction false} DecidedIsFinal(s: TryoutStatus, requests: seq<TryoutStatus>)
    requires s != InReview
    ensures RunUpdates(s, requests).0 == s
    ensures forall i | 0 <= i < |requests| :: !RunUpdates(s, requests).1[i]
    decreases |requests|
  {
    if requests != [] {
      DecidedIsFinal(s, requests[1..]);
    }
  }

  /** In any series of update requests on a tryout in review, a success that
      leaves review is followed only by failures, and the final status is the
      one that request set. */
  lemma {:induction false} DecisionHappensOnce(requests: seq<TryoutStatus>, k: nat)
    requires k < |requests| && requests[k] != InReview
    requires RunUpdates(InReview, requests).1[k]
    ensures RunUpdates(InReview, requests).0 == requests[k]
    ensures forall i | k < i < |requests| :: !RunUpdates(InReview, requests).1[i]
    decreases |requests|
  {
    if k == 0 || requests[0] != InReview {
      // the first request already takes the tryout out of review
      DecidedIsFinal(requests[0], requests[1..]);
    } else {
      DecisionHappensOnce(requests[1..], k - 1);
    }
  }

  /** Asking an in-review tryout to stay in review succeeds and keeps it
      updatable, so the code does not limit a tryout to one successful
      update: every request in a series of in-review requests succeeds. */
  lemma {:induction false} InReviewStaysUpdatable(requests: seq<TryoutStatus>)
    requires forall i | 0 <= i < |requests| :: requests[i] == InReview
    ensures RunUpdates(InReview, requests).0 == InReview
    ensures forall i | 0 <= i < |requests| :: RunUpdates(InReview, requests).1[i]
    decreases |requests|
  {
    if requests != [] {
      InReviewStaysUpdatable(requests[1..]);
    }
  }
}
