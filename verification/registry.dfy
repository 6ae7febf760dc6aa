/** The delivery-point registry: an ordered table of point names and a
    `MaxPoints` x `MaxPoints` integer distance matrix indexed by table
    position. */
module Registry {
  import opened Wrappers

  datatype DeliverySystem = DeliverySystem(points: seq<string>, distances: seq<seq<int>>) {
    /** Number of registered points (`count` in the C struct). */
    function Count(): nat { |points| }

    /** Within capacity, and the matrix is a full square of `MaxPoints`. */
    ghost predicate Valid() {
      && |points| <= MaxPoints
      && |distances| == MaxPoints
      && forall i :: 0 <= i < MaxPoints ==> |distances[i]| == MaxPoints
    }
  }

  /** distance(i, j) == distance(j, i) over the whole matrix. */
  ghost predicate Symmetric(s: DeliverySystem)
    requires s.Valid()
  {
    forall i, j :: 0 <= i < MaxPoints && 0 <= j < MaxPoints ==> s.distances[i][j] == s.distances[j][i]
  }

  /** An empty registry whose matrix is all zeros ("no edge" everywhere). */
  function InitSystem(): (s: DeliverySystem)
    ensures s.Valid() && s.Count() == 0 && Symmetric(s)
    ensures forall i, j :: 0 <= i < MaxPoints && 0 <= j < MaxPoints ==> s.distances[i][j] == 0
  {
    DeliverySystem([], seq(MaxPoints, _ => seq(MaxPoints, _ => 0)))
  }

  /** Appends a name to the table; no duplicate check, matrix untouched.
      A new name then resolves to the old count, and every name that was
      already registered keeps its position. */
  function AddDeliveryPoint(s: DeliverySystem, address: string): (r: DeliverySystem)
    requires s.Valid() && s.Count() < MaxPoints
    ensures r.Valid() && r.Count() == s.Count() + 1
    ensures r.points[..s.Count()] == s.points && r.points[s.Count()] == address
    ensures r.distances == s.distances
    ensures address !in s.points ==> GetIndex(r, address) == s.Count()
    ensures forall o :: o in s.points ==> GetIndex(r, o) == GetIndex(s, o)
  {
    DeliverySystem(s.points + [address], s.distances)
  }

  /** First position at or after `i` holding `address`, or -1. */
  function FindFrom(points: seq<string>, address: string, i: nat): (r: int)
    requires i <= |points|
    ensures r == -1 || i <= r < |points|
    ensures 0 <= r ==> points[r] == address && forall k :: i <= k < r ==> points[k] != address
    ensures r == -1 <==> forall k :: i <= k < |points| ==> points[k] != address
    decreases |points| - i
  {
    if i == |points| then -1
    else if points[i] == address then i
    else FindFrom(points, address, i + 1)
  }

  /** Linear first-match lookup of a name: its smallest position, or -1 when
      the name is not registered. */
  function GetIndex(s: DeliverySystem, address: string): (r: int)
    ensures -1 <= r < s.Count()
    ensures 0 <= r ==> s.points[r] == address && forall k :: 0 <= k < r ==> s.points[k] != address
    ensures r == -1 <==> address !in s.points
  {
    FindFrom(s.points, address, 0)
  }

  /** Writes `dist` into both (i, j) and (j, i) when both names resolve;
      silently leaves the system unchanged otherwise. */
  function SetDistance(s: DeliverySystem, addr1: string, addr2: string, dist: int): (r: DeliverySystem)
    requires s.Valid()
    ensures r.Valid() && r.points == s.points
    ensures addr1 !in s.points || addr2 !in s.points ==> r == s
    ensures addr1 in s.points && addr2 in s.points ==>
      var i, j := GetIndex(s, addr1), GetIndex(s, addr2);
      && r.distances[i][j] == dist && r.distances[j][i] == dist
      && forall x, y :: 0 <= x < MaxPoints && 0 <= y < MaxPoints && !(x == i && y == j) && !(x == j && y == i)
           ==> r.distances[x][y] == s.distances[x][y]
    ensures Symmetric(s) ==> Symmetric(r)
  {
    var i := GetIndex(s, addr1);
    var j := GetIndex(s, addr2);
    if i != -1 && j != -1 then
      var d1 := s.distances[i := s.distances[i][j := dist]];
      var d2 := d1[j := d1[j][i := dist]];
      DeliverySystem(s.points, d2)
    else
      s
  }

  /** The registry after `init_system` and one `add_delivery_point` per name,
      in order. */
  function Register(names: seq<string>): (s: DeliverySystem)
    requires |names| <= MaxPoints
    ensures s.Valid() && s.points == names && Symmetric(s)
    ensures s.distances == InitSystem().distances
  {
    if names == [] then InitSystem()
    else
      var init := names[..|names| - 1];
      var prev := Register(init);
      assert names == init + [names[|names| - 1]];
      AddDeliveryPoint(prev, names[|names| - 1])
  }

  /** Registering distinct names makes each one map back to its insertion
      position. */
  lemma RegisterRoundTrip(names: seq<string>)
    requires |names| <= MaxPoints
    requires forall a, b :: 0 <= a < b < |names| ==> names[a] != names[b]
    ensures forall i :: 0 <= i < |names| ==> GetIndex(Register(names), names[i]) == i
  {
  }

  /** With duplicate names, a lookup returns the first registered copy. */
  lemma RegisterDuplicateFirst(names: seq<string>, i: nat, j: nat)
    requires |names| <= MaxPoints && i < j < |names| && names[i] == names[j]
    requires forall k :: 0 <= k < i ==> names[k] != names[i]
    ensures GetIndex(Register(names), names[j]) == i
  {
  }
}
