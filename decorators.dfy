/** The teacher-only access decorator: unauthenticated users are sent to the
    login page, authenticated non-teachers are refused, teachers reach the view. */
module Decorators {
  import opened Models

  const ProfesoresGroup: string := "ProfesoresFP"
  const ForbiddenMessage: string := "No tienes permisos para acceder a esta página."

  /** The user is logged in and belongs to the teachers' group. */
  predicate UserInGroupProfesores(u: User) {
    u.isAuthenticated && ProfesoresGroup in u.groups
  }

  /** The three outcomes of the decorator's checks. */
  datatype Access = SendToLogin | Deny | Admit

  /** Authentication is checked before membership. */
  function CheckAccess(u: User): (a: Access)
    ensures a == SendToLogin <==> !u.isAuthenticated
    ensures a == Deny <==> u.isAuthenticated && !UserInGroupProfesores(u)
    ensures a == Admit <==> UserInGroupProfesores(u)
  {
    if !u.isAuthenticated then SendToLogin
    else if !UserInGroupProfesores(u) then Deny
    else Admit
  }

  /** What the wrapped view answers: a redirect, a 403 or the view's own answer. */
  datatype Response<R> = Redirect(location: string) | Forbidden(body: string) | FromView(result: R)

  /** The decorated view: `view` is called with the very request and arguments
      only when the user is a teacher. */
  function WrappedView<A, R>(view: (Request, A) -> R, loginUrl: string, request: Request, args: A): (resp: Response<R>)
    ensures resp.Redirect? <==> !request.user.isAuthenticated
    ensures resp.Redirect? ==> resp.location == loginUrl + "?next=" + request.path
    ensures resp.Forbidden? <==> request.user.isAuthenticated && !UserInGroupProfesores(request.user)
    ensures resp.Forbidden? ==> resp.body == ForbiddenMessage
    ensures resp.FromView? <==> UserInGroupProfesores(request.user)
    ensures resp.FromView? ==> resp.result == view(request, args)
  {
    match CheckAccess(request.user)
    case SendToLogin => Redirect(loginUrl + "?next=" + request.path)
    case Deny => Forbidden(ForbiddenMessage)
    case Admit => FromView(view(request, args))
  }
}
