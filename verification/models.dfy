/** The validated data model of the backend: the closed enumerations, their
    wire names, the caller's profile and the constraints on request bodies. */
module Models {
  import opened Wrappers
  import opened Http

  datatype RequestType = RoomBooking | AccessPermission | EquipmentCheckout | Other {
    /** The string value of the enumeration member. */
    function Name(): string {
      match this
      case RoomBooking => "room_booking"
      case AccessPermission => "access_permission"
      case EquipmentCheckout => "equipment_checkout"
      case Other => "other"
    }
  }

  datatype RequestStatus = Pending | Approved | Rejected | Escalated {
    function Name(): string {
      match this
      case Pending => "PENDING"
      case Approved => "APPROVED"
      case Rejected => "REJECTED"
      case Escalated => "ESCALATED"
    }
  }

  datatype RiskLevel = Low | Medium | High {
    function Name(): string {
      match this
      case Low => "LOW"
      case Medium => "MEDIUM"
      case High => "HIGH"
    }
  }

  datatype AuditAction = Submitted | AutoApproved | Escalated | Approved | Rejected {
    function Name(): string {
      match this
      case Submitted => "SUBMITTED"
      case AutoApproved => "AUTO_APPROVED"
      case Escalated => "ESCALATED"
      case Approved => "APPROVED"
      case Rejected => "REJECTED"
    }
  }

  /** Parses a request type the way the enumeration accepts a string: only
      one of the four values is admitted. */
  function ParseRequestType(s: string): (r: Option<RequestType>)
    ensures r.Some? ==> r.value.Name() == s
    ensures forall t: RequestType :: t.Name() == s ==> r == Some(t)
  {
    if s == "room_booking" then Some(RoomBooking)
    else if s == "access_permission" then Some(AccessPermission)
    else if s == "equipment_checkout" then Some(EquipmentCheckout)
    else if s == "other" then Some(Other)
    else None
  }

  /** Parses a stored status string back into the enumeration. */
  function ParseRequestStatus(s: string): (r: Option<RequestStatus>)
    ensures r.Some? ==> r.value.Name() == s
    ensures forall t: RequestStatus :: t.Name() == s ==> r == Some(t)
  {
    if s == "PENDING" then Some(Pending)
    else if s == "APPROVED" then Some(RequestStatus.Approved)
    else if s == "REJECTED" then Some(RequestStatus.Rejected)
    else if s == "ESCALATED" then Some(RequestStatus.Escalated)
    else None
  }

  /** The caller as resolved by the authentication layer. */
  datatype UserProfile = UserProfile(id: string, email: string, fullName: Option<string>, role: string)

  const DefaultRole := "user"
  const AdminRole := "admin"

  /** Builds a profile; a role that is not given defaults to "user". */
  function NewUserProfile(id: string, email: string, fullName: Option<string>, role: Option<string>): (p: UserProfile)
    ensures p.id == id && p.email == email && p.fullName == fullName
    ensures role.Some? ==> p.role == role.value
    ensures role.None? ==> p.role == DefaultRole && !IsAdmin(p)
  {
    UserProfile(id, email, fullName, role.GetOr(DefaultRole))
  }

  /** The administrator gate: only the role "admin" passes. */
  predicate IsAdmin(u: UserProfile) {
    u.role == AdminRole
  }

  // ---- request bodies ----

  const TitleMinLength := 3
  const TitleMaxLength := 200
  const DescriptionMinLength := 10
  const RejectionReasonMinLength := 5

  /** A submission body that passed validation. */
  datatype RequestCreate = RequestCreate(title: string, description: string, requestType: RequestType)

  predicate ValidTitle(title: string) {
    TitleMinLength <= |title| <= TitleMaxLength
  }

  predicate ValidDescription(description: string) {
    DescriptionMinLength <= |description|
  }

  predicate ValidRequestCreate(c: RequestCreate) {
    ValidTitle(c.title) && ValidDescription(c.description)
  }

  /** Validation of a submission body: a 422 unless the title has 3 to 200
      characters, the description at least 10 and the type is one of the
      four values. */
  function ParseRequestCreate(title: string, description: string, requestType: string): (r: Result<RequestCreate, HttpError>)
    ensures r.Ok? <==> ValidTitle(title) && ValidDescription(description) && ParseRequestType(requestType).Some?
    ensures r.Ok? ==> ValidRequestCreate(r.value) && r.value.title == title && r.value.description == description
                      && r.value.requestType.Name() == requestType
    ensures r.Err? ==> r.error == Unprocessable
  {
    match ParseRequestType(requestType)
    case None => Err(Unprocessable)
    case Some(t) =>
      if ValidTitle(title) && ValidDescription(description) then Ok(RequestCreate(title, description, t))
      else Err(Unprocessable)
  }

  /** The approval body: the reason is optional and unconstrained. */
  datatype ApprovalAction = ApprovalAction(reason: Option<string>)

  /** The rejection body: the reason is required. */
  datatype RejectionAction = RejectionAction(reason: string)

  predicate ValidRejection(a: RejectionAction) {
    RejectionReasonMinLength <= |a.reason|
  }

  /** Validation of a rejection body: a 422 unless the reason has at least
      5 characters (whitespace counts). */
  function ParseRejectionAction(reason: string): (r: Result<RejectionAction, HttpError>)
    ensures r.Ok? <==> RejectionReasonMinLength <= |reason|
    ensures r.Ok? ==> r.value.reason == reason && ValidRejection(r.value)
    ensures r.Err? ==> r.error == Unprocessable
  {
    if RejectionReasonMinLength <= |reason| then Ok(RejectionAction(reason)) else Err(Unprocessable)
  }

  /** Every valid submission body survives a round trip through its wire form. */
  lemma ParseRequestCreateRoundTrip(c: RequestCreate)
    requires ValidRequestCreate(c)
    ensures ParseRequestCreate(c.title, c.description, c.requestType.Name()) == Ok(c)
  {
  }

  /** Every valid rejection body survives a round trip through its wire form. */
  lemma ParseRejectionRoundTrip(a: RejectionAction)
    requires ValidRejection(a)
    ensures ParseRejectionAction(a.reason) == Ok(a)
  {
  }
}
