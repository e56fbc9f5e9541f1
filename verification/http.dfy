/** The HTTP errors the backend raises (FastAPI's HTTPException): a status
    code and a detail message. */
module Http {

  datatype HttpError = HttpError(code: int, detail: string)

  /** 404 raised by `get_request` and `_fetch_or_404`. */
  const RequestNotFound := HttpError(404, "Request not found")
  /** 403 raised by `get_request` when the caller is neither owner nor admin. */
  const AccessDenied := HttpError(403, "Access denied")
  /** 403 raised by the admin dependency `get_admin_user`. */
  const AdminRequired := HttpError(403, "Admin access required")
  /** 400 raised by `approve_request` on a status that cannot be approved. */
  const NotApprovable := HttpError(400, "Only PENDING or ESCALATED requests can be approved")
  /** 400 raised by `reject_request` on a status that cannot be rejected. */
  const NotRejectable := HttpError(400, "Only PENDING or ESCALATED requests can be rejected")
  /** 422 produced by request-body validation of the pydantic models. */
  const Unprocessable := HttpError(422, "Validation error")
  /** 500 raised by `create_request` when the insert into the requests table fails. */
  const CreateFailed := HttpError(500, "Failed to create request")
}
