/** `UserPermissionsService.CanEditFilm`: the ownership rule that gates every mutation. */
module UserPermissions {
  import opened Wrappers
  import opened Models

  /** May `caller` (None when the request is not authenticated) edit or delete `film`? */
  function CanEditFilm(caller: Option<UserId>, film: Film): (allowed: bool)
    ensures allowed ==> caller.Some?
    ensures caller.Some? ==> (allowed <==> caller.value == film.creatorId)
  {
    if caller.None? then false else caller.value == film.creatorId
  }

  /** An unauthenticated caller may edit no film. */
  lemma AnonymousCannotEdit(film: Film)
    ensures !CanEditFilm(None, film)
  {
  }

  /** An authenticated caller may edit exactly the films it created. */
  lemma OwnerMayEdit(user: UserId, film: Film)
    ensures CanEditFilm(Some(user), film) <==> user == film.creatorId
  {
  }

  /** The decision depends on the caller and the film's creator only. */
  lemma DecisionDependsOnCreatorOnly(caller: Option<UserId>, f: Film, g: Film)
    requires f.creatorId == g.creatorId
    ensures CanEditFilm(caller, f) == CanEditFilm(caller, g)
  {
  }
}
