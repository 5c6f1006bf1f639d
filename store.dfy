/** The backend's tables as mutable state, and the two write routes, which INSERT a
    row into a link table (server.js, /api/add-need and /api/add-teach). */
module SkillStore {
  import opened Relational
  import opened SkillMatching

  /** The reply of a write route: the success message, or the database error that
      the route turns into an HTTP 500 reply. */
  datatype AddResult = Added(message: string) | StorageError

  const NeedAddedMessage: string := "Need skill added successfully"
  const TeachAddedMessage: string := "Teach skill added successfully"

  /** The four tables held by the database. */
  class Store {
    var users: seq<User>
    var skills: seq<Skill>
    var needs: seq<Link>
    var teaches: seq<Link>

    /** The tables as a value, the input of the read queries. */
    function Db(): Tables
      reads this
    {
      Tables(users, skills, needs, teaches)
    }

    constructor (db: Tables)
      ensures Db() == db
    {
      users, skills, needs, teaches := db.users, db.skills, db.needs, db.teaches;
    }

    /** POST /api/add-need: inserts (userId, skillId) into user_skills_need without
        checking for an existing identical row. storageFailure stands for the
        database rejecting the statement, in which case nothing is stored. */
    method AddNeed(userId: int, skillId: int, storageFailure: bool) returns (result: AddResult)
      modifies this`needs
      ensures storageFailure ==> result == StorageError && needs == old(needs)
      ensures !storageFailure ==>
                result == Added(NeedAddedMessage) && needs == old(needs) + [Link(userId, skillId)]
      ensures users == old(users) && skills == old(skills) && teaches == old(teaches)
      ensures DiscoverTeach(Db()) == old(DiscoverTeach(Db()))
      ensures !storageFailure ==>
                DiscoverNeed(Db()) == old(DiscoverNeed(Db())) + ListingsFor(old(Db()))(Link(userId, skillId))
      ensures !storageFailure && KeysUnique(old(Db())) && !Resolves(old(Db()), Link(userId, skillId)) ==>
                DiscoverNeed(Db()) == old(DiscoverNeed(Db()))
      ensures !storageFailure && KeysUnique(old(Db())) && Resolves(old(Db()), Link(userId, skillId)) ==>
                exists row :: ShownAs(old(Db()), Link(userId, skillId), row) &&
                              DiscoverNeed(Db()) == old(DiscoverNeed(Db())) + [row]
    {
      if storageFailure {
        return StorageError;
      }
      var l := Link(userId, skillId);
      FlatMapAppend(needs, [l], ListingsFor(Db()));
      assert FlatMap([l], ListingsFor(Db())) == ListingsFor(Db())(l) + FlatMap([], ListingsFor(Db()));
      if KeysUnique(Db()) {
        DiscoverAppend(Db(), needs, l);
      }
      needs := needs + [l];
      result := Added(NeedAddedMessage);
    }

    /** POST /api/add-teach: inserts (userId, skillId) into user_skills_teach without
        checking for an existing identical row; on a storage failure nothing is
        stored. */
    method AddTeach(userId: int, skillId: int, storageFailure: bool) returns (result: AddResult)
      modifies this`teaches
      ensures storageFailure ==> result == StorageError && teaches == old(teaches)
      ensures !storageFailure ==>
                result == Added(TeachAddedMessage) && teaches == old(teaches) + [Link(userId, skillId)]
      ensures users == old(users) && skills == old(skills) && needs == old(needs)
      ensures DiscoverNeed(Db()) == old(DiscoverNeed(Db()))
      ensures !storageFailure ==>
                DiscoverTeach(Db()) == old(DiscoverTeach(Db())) + ListingsFor(old(Db()))(Link(userId, skillId))
      ensures !storageFailure && KeysUnique(old(Db())) && !Resolves(old(Db()), Link(userId, skillId)) ==>
                DiscoverTeach(Db()) == old(DiscoverTeach(Db()))
      ensures !storageFailure && KeysUnique(old(Db())) && Resolves(old(Db()), Link(userId, skillId)) ==>
                exists row :: ShownAs(old(Db()), Link(userId, skillId), row) &&
                              DiscoverTeach(Db()) == old(DiscoverTeach(Db())) + [row]
    {
      if storageFailure {
        return StorageError;
      }
      var l := Link(userId, skillId);
      FlatMapAppend(teaches, [l], ListingsFor(Db()));
      assert FlatMap([l], ListingsFor(Db())) == ListingsFor(Db())(l) + FlatMap([], ListingsFor(Db()));
      if KeysUnique(Db()) {
        DiscoverAppend(Db(), teaches, l);
      }
      teaches := teaches + [l];
      result := Added(TeachAddedMessage);
    }
  }
}
