/** The order in which a C++ ordered map visits its keys. */
module OrderedKeys {
  import opened Machine

  lemma LeastExists(keys: set<nat>) returns (least: nat)
    requires keys != {}
    ensures least in keys && forall j :: j in keys ==> least <= j
  {
    least :| least in keys;
    var smaller := set j | j in keys && j < least;
    assert forall j :: j in keys && j < least ==> j in smaller;
    if smaller != {} {
      assert smaller < keys;
      least := LeastExists(smaller);
    }
  }

  lemma GreatestExists(keys: set<nat>) returns (greatest: nat)
    requires keys != {}
    ensures greatest in keys && forall j :: j in keys ==> j <= greatest
  {
    greatest :| greatest in keys;
    var larger := set j | j in keys && greatest < j;
    assert forall j :: j in keys && greatest < j ==> j in larger;
    if larger != {} {
      assert larger < keys;
      greatest := GreatestExists(larger);
    }
  }

  lemma BoundsExist(keys: set<nat>)
    requires keys != {}
    ensures exists k :: k in keys && forall j :: j in keys ==> k <= j
    ensures exists k :: k in keys && forall j :: j in keys ==> j <= k
  {
    var least := LeastExists(keys);
    var greatest := GreatestExists(keys);
  }

  function Least(keys: set<nat>): (k: nat)
    requires keys != {}
    ensures k in keys && forall j :: j in keys ==> k <= j
  {
    BoundsExist(keys);
    var k :| k in keys && forall j :: j in keys ==> k <= j;
    k
  }

  function Greatest(keys: set<nat>): (k: nat)
    requires keys != {}
    ensures k in keys && forall j :: j in keys ==> j <= k
  {
    BoundsExist(keys);
    var k :| k in keys && forall j :: j in keys ==> j <= k;
    k
  }

  /** Where an iterator starts: the least key, or the end position. */
  function First(keys: set<nat>): (r: Option<nat>)
    ensures r.None? <==> keys == {}
    ensures r.Some? ==> r.value in keys && forall j :: j in keys ==> r.value <= j
  {
    if keys == {} then None else Some(Least(keys))
  }

  /** Where an iterator at `k` goes next: the least greater key, or the end position. */
  function Next(keys: set<nat>, k: nat): (r: Option<nat>)
    ensures r.None? ==> forall j :: j in keys ==> j <= k
    ensures r.Some? ==> r.value in keys && k < r.value && forall j :: j in keys && k < j ==> r.value <= j
  {
    var later := set j | j in keys && k < j;
    assert forall j :: j in keys && k < j ==> j in later;
    First(later)
  }
}
