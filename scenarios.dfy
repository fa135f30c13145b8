/** Worked examples of the last-name resolution policy. */
module Scenarios {
  import opened Wrappers
  import opened Streams
  import opened Domain
  import opened UserService

  /** Users that differ only in their last names. */
  function Named(lastNames: seq<string>): (users: seq<User>)
    ensures LastNames(users) == lastNames
  {
    var users := MapEach(lastNames, (n: string) => User("", n, 30, {}));
    assert LastNames(users) == lastNames;
    users
  }

  /** Smith and Jones both occur twice: a tie at the top, so no answer. */
  lemma TieAtTheTop()
    ensures MostFrequentLastName(Named(["Smith", "Jones", "Smith", "Lee", "Jones"])) == None
  {
    var names := ["Smith", "Jones", "Smith", "Lee", "Jones"];
    var counts := multiset(names);
    assert counts == multiset{"Smith", "Smith", "Jones", "Jones"} + multiset{"Lee"};
    assert counts["Smith"] == 2 && counts["Jones"] == 2;
    forall m ensures counts[m] <= counts["Smith"] {
      assert counts[m] <= multiset{"Smith", "Smith", "Jones", "Jones"}[m] + 1;
    }
    MostFrequentLastNameTopTie(Named(names), "Smith", "Jones");
  }

  /** Lee occurs three times, every other name at most twice: Lee. */
  lemma ClearWinner()
    ensures MostFrequentLastName(Named(["Smith", "Jones", "Smith", "Lee", "Lee", "Lee"])) == Some("Lee")
  {
    var names := ["Smith", "Jones", "Smith", "Lee", "Lee", "Lee"];
    var counts := multiset(names);
    assert counts == multiset{"Smith", "Smith", "Jones"} + multiset{"Lee", "Lee", "Lee"};
    assert counts["Lee"] == 3;
    forall m | m != "Lee" ensures counts[m] < counts["Lee"] {
      assert counts[m] == multiset{"Smith", "Smith", "Jones"}[m];
    }
    MostFrequentLastNameComplete(Named(names), "Lee");
  }

  /** Every name occurs once: no answer, although each is a statistical mode. */
  lemma AllDistinct()
    ensures MostFrequentLastName(Named(["A", "B", "C"])) == None
  {
    MostFrequentLastNameAllDistinct(Named(["A", "B", "C"]));
  }
}
