/** The content-based recommendation page as one step: recommend for the
    selected course, and when something was recommended to a logged-in user,
    record the course in that user's history. */
module Facade {
  import opened Wrappers
  import opened UserStore
  import ContentBased

  /** The list the page shows and the user records it leaves behind. */
  datatype PageOutcome = PageOutcome(shown: seq<string>, users: seq<User>)

  /** `session` is the name of the logged-in non-admin user; it is `None` for
      an anonymous visitor or an admin, whose visits are not recorded. */
  function RecommendationPage(catalog: Option<seq<string>>, similarity: Option<seq<seq<int>>>,
                              users: seq<User>, session: Option<string>, course: string): (o: PageOutcome)
    ensures var r := ContentBased.Recommend(catalog, similarity, course);
            (r.Failure? ==> o.shown == [] && o.users == users)
            && (r.Success? ==> o.shown == r.value)
    ensures o.shown == [] || session.None? ==> o.users == users
    ensures o.shown != [] && session.Some? ==> o.users == AppendHistory(users, session.value, course)
    ensures o.shown != [] && session.Some? ==>
              GetUserHistory(o.users, session.value) ==
                if session.value in Usernames(users) then AddCourse(GetUserHistory(users, session.value), course) else []
    ensures session.Some? ==>
              forall other :: other != session.value ==> GetUserHistory(o.users, other) == GetUserHistory(users, other)
  {
    match ContentBased.Recommend(catalog, similarity, course)
    case Failure(_) => PageOutcome([], users)
    case Success(shown) =>
      if shown != [] && session.Some? then
        var name := session.value;
        var updated := AppendHistory(users, name, course);
        assert forall other :: GetUserHistory(updated, other) ==
                 if other == name then
                   (if name in Usernames(users) then AddCourse(GetUserHistory(users, name), course) else [])
                 else GetUserHistory(users, other) by {
          forall other ensures GetUserHistory(updated, other) ==
                 if other == name then
                   (if name in Usernames(users) then AddCourse(GetUserHistory(users, name), course) else [])
                 else GetUserHistory(users, other) {
            AppendThenGet(users, name, course, other);
          }
        }
        PageOutcome(shown, updated)
      else PageOutcome(shown, users)
  }
}
