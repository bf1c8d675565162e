/** UserService: the use cases the web layer calls, over a repository of users. */
module UserServices {
  import opened Wrappers
  import opened Domain
  import opened Store
  import opened Repository

  /** The MVC SelectListItem, reduced to the three properties GetGender sets. */
  datatype SelectListItem = SelectListItem(text: string, value: string, selected: bool)

  /**
   * `GetGender(selectedGender)`: the two options "Male" then "Female", each shown as its own value
   * and selected exactly when `selectedGender` equals it. It reads no state, so it is a function
   * of its argument alone.
   */
  function GetGender(selectedGender: Option<string>): (items: seq<SelectListItem>)
    ensures |items| == 2
    ensures items[0].value == "Male" && items[1].value == "Female"
    ensures forall i | 0 <= i < |items| :: items[i].text == items[i].value
    ensures forall i | 0 <= i < |items| :: items[i].selected <==> selectedGender == Some(items[i].value)
    ensures forall i, j | 0 <= i < j < |items| :: !(items[i].selected && items[j].selected)
    ensures selectedGender != Some("Male") && selectedGender != Some("Female") ==>
      forall i | 0 <= i < |items| :: !items[i].selected
  {
    [ SelectListItem("Male", "Male", Some("Male") == selectedGender)
    , SelectListItem("Female", "Female", Some("Female") == selectedGender) ]
  }

  /** A table of users: `User` derives from `BaseEntity` alone, so no stored row carries audit fields. */
  predicate HoldsUsers(rows: seq<Entity<Person>>) {
    forall i | 0 <= i < |rows| :: !rows[i].IsAuditable()
  }

  class UserService {
    const userRepository: EntityRepository<Person>

    constructor (userRepository: EntityRepository<Person>)
      ensures this.userRepository == userRepository
    {
      this.userRepository := userRepository;
    }

    /** `GetUserById(id)`: exactly what the repository's GetById returns, null included. */
    method GetUserById(id: Guid) returns (user: Option<User>)
      requires userRepository.Valid() && HoldsUsers(userRepository.rows)
      ensures user == userRepository.GetById(id)
      ensures user.None? <==> id !in Ids(userRepository.rows)
    {
      var found := userRepository.GetById(id);
      match found
      case None => user := None;
      case Some(e) => user := Some(e);
    }

    /**
     * `InsertUser(user)`: Insert then Save. A user is not auditable, so nothing is stamped; the
     * user is committed with the values given, and the same user is returned.
     */
    method InsertUser(user: User, now: DateTime) returns (inserted: User)
      requires userRepository.Valid() && userRepository.IsFreshId(user.id)
      modifies userRepository
      ensures userRepository.Valid()
      ensures inserted == user
      ensures userRepository.rows == old(userRepository.Saved()) + [user]
      ensures userRepository.added == [] && userRepository.modified == map[] && userRepository.removed == {}
      ensures userRepository.GetById(user.id) == Some(user)
      ensures HoldsUsers(old(userRepository.Saved())) ==> HoldsUsers(userRepository.rows)
    {
      ghost var before := userRepository.rows + userRepository.added;
      ghost var m, r := userRepository.modified, userRepository.removed;
      var stamped := userRepository.Insert(user, now);
      assert stamped == user;
      assert userRepository.rows + userRepository.added == before + [user];
      userRepository.Save();
      CommitNewRow(before, m, r, user);
      InsertThenSaveFinds(before, m, r, user);
      inserted := user;
    }
  }
}
