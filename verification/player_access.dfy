/** The round's arsonist set and the seeded choice of arsonists among the
    Slackers. The game's player list, `string.GetHashCode` and
    `System.Random` are parameters. */
module PlayerAccess {
  import opened Common
  import opened Ordering

  /** The arsonist ids in insertion order, the order in which a hash set
      that is only ever added to and cleared enumerates them. */
  datatype Access = Access(arsonists: seq<string>)

  ghost predicate Valid(a: Access) {
    NoDups(a.arsonists)
  }

  const Empty := Access([])

  predicate IsArsonist(a: Access, id: string) {
    id in a.arsonists
  }

  /** Adds a player to the arsonist set; adding twice is adding once. */
  function SetArsonist(a: Access, id: string): (r: Access)
    requires Valid(a)
    ensures Valid(r)
    ensures forall x :: IsArsonist(r, x) <==> IsArsonist(a, x) || x == id
    ensures |r.arsonists| > 0
    ensures |a.arsonists| > 0 ==> r.arsonists[0] == a.arsonists[0]
  {
    if id in a.arsonists then a
    else
      NoDupsCons(id, []);
      assert forall i, j :: 0 <= i < j < |a.arsonists| + 1 ==> (a.arsonists + [id])[i] != (a.arsonists + [id])[j];
      Access(a.arsonists + [id])
  }

  /** The lobby-player overload: a null player is never an arsonist. */
  function IsArsonistPlayer(a: Access, player: Option<string>): (b: bool)
    ensures b <==> player.Some? && IsArsonist(a, player.value)
  {
    match player
    case None => false
    case Some(id) => IsArsonist(a, id)
  }

  /** Some arsonist, or none when the set is empty. */
  function GetArsonistId(a: Access): (r: Option<string>)
    ensures r.None? <==> forall x :: !IsArsonist(a, x)
    ensures r.Some? ==> IsArsonist(a, r.value)
  {
    if |a.arsonists| == 0 then None
    else
      assert IsArsonist(a, a.arsonists[0]);
      Some(a.arsonists[0])
  }

  function Reset(a: Access): (r: Access)
    ensures Valid(r)
    ensures forall x :: !IsArsonist(r, x)
  {
    Empty
  }

  /** Adds each id in turn. */
  function SetAll(a: Access, ids: seq<string>): (r: Access)
    requires Valid(a)
    ensures Valid(r)
    decreases |ids|
  {
    if |ids| == 0 then a else SetAll(SetArsonist(a, ids[0]), ids[1..])
  }

  /** A player is an arsonist exactly when it was added since the last reset. */
  lemma {:induction false} SetAllMembers(a: Access, ids: seq<string>, x: string)
    requires Valid(a)
    ensures IsArsonist(SetAll(a, ids), x) <==> IsArsonist(a, x) || x in ids
    decreases |ids|
  {
    if |ids| > 0 {
      SetAllMembers(SetArsonist(a, ids[0]), ids[1..], x);
      assert ids == [ids[0]] + ids[1..];
    }
  }

  lemma ArsonistSinceReset(a: Access, ids: seq<string>, x: string)
    requires Valid(a)
    ensures IsArsonist(SetAll(Reset(a), ids), x) <==> x in ids
  {
    SetAllMembers(Reset(a), ids, x);
  }

  datatype Role = Slacker | Specialist | OtherRole

  datatype PlayerInfo = PlayerInfo(id: string, role: Role)

  /** The ids of the Slackers, in player-list order. */
  function SlackerIds(players: seq<PlayerInfo>): (r: seq<string>)
    ensures forall x :: x in r <==> exists i :: 0 <= i < |players| && players[i].role == Slacker && players[i].id == x
  {
    if |players| == 0 then []
    else
      var rest := SlackerIds(players[1..]);
      assert forall i :: 0 < i < |players| ==> players[i] == players[1..][i - 1];
      if players[0].role == Slacker then [players[0].id] + rest else rest
  }

  /** The 32-bit seed `seed = seed * 31 + hash(id)` folded over the ids. */
  function Seed(ids: seq<string>, hash: string -> int): (r: int)
    ensures IsInt32(r)
  {
    if |ids| == 0 then 0
    else Wrap32(Seed(ids[..|ids| - 1], hash) * 31 + hash(ids[|ids| - 1]))
  }

  /** `draw(seed, k, n)` is the k-th draw of a generator seeded with `seed`
      among `n` choices: it lies in [0, n). */
  ghost predicate BoundedRng(draw: (int, nat, nat) -> nat) {
    forall seed, k, n :: 0 < n ==> draw(seed, k, n) < n
  }

  /** Draws `remaining` entries from the pool, removing each as it is drawn. */
  function Draws(pool: seq<string>, seed: int, call: nat, remaining: nat,
                 draw: (int, nat, nat) -> nat): (r: seq<string>)
    requires BoundedRng(draw)
    requires remaining <= |pool|
    ensures |r| == remaining
    ensures multiset(r) <= multiset(pool)
    decreases remaining
  {
    if remaining == 0 then []
    else
      var idx := draw(seed, call, |pool|);
      var rest := pool[..idx] + pool[idx + 1..];
      assert pool == pool[..idx] + [pool[idx]] + pool[idx + 1..];
      var tail := Draws(rest, seed, call + 1, remaining - 1, draw);
      assert multiset(pool) == multiset{pool[idx]} + multiset(rest);
      [pool[idx]] + tail
  }

  /** The arsonists the selection draws: `count` (1 when no settings exist)
      Slackers, capped at the number of Slackers, drawn without replacement
      from the Slacker ids sorted under `le`. */
  function Chosen(players: seq<PlayerInfo>, count: Option<int>, le: (string, string) -> bool,
                  hash: string -> int, draw: (int, nat, nat) -> nat): (r: seq<string>)
    requires BoundedRng(draw)
  {
    var slackers := SortBy(le, SlackerIds(players));
    var n := Max(0, Min(count.GetOr(1), |slackers|));
    Draws(slackers, Seed(slackers, hash), 0, n, draw)
  }

  datatype Selection = Selection(access: Access, arsonist: Option<string>)

  /** Selects arsonists and returns one of them; with no Slacker at all it
      selects nobody and returns none, whatever the set already holds. */
  function SelectArsonist(a: Access, players: seq<PlayerInfo>, count: Option<int>,
                          le: (string, string) -> bool, hash: string -> int,
                          draw: (int, nat, nat) -> nat): (r: Selection)
    requires Valid(a)
    requires BoundedRng(draw)
    ensures Valid(r.access)
    ensures SlackerIds(players) == [] ==> r == Selection(a, None)
    ensures SlackerIds(players) != [] ==> r.arsonist == GetArsonistId(r.access)
  {
    if |SlackerIds(players)| == 0 then Selection(a, None)
    else
      var a1 := SetAll(a, Chosen(players, count, le, hash, draw));
      Selection(a1, GetArsonistId(a1))
  }

  /** The selection adds exactly the chosen ids, which are Slackers drawn
      without replacement, as many as the count allows. */
  lemma SelectionDrawsSlackers(a: Access, players: seq<PlayerInfo>, count: Option<int>,
                               le: (string, string) -> bool, hash: string -> int,
                               draw: (int, nat, nat) -> nat)
    requires Valid(a)
    requires BoundedRng(draw)
    ensures var c := Chosen(players, count, le, hash, draw);
      && multiset(c) <= multiset(SlackerIds(players))
      && |c| == Max(0, Min(count.GetOr(1), |SlackerIds(players)|))
    ensures SlackerIds(players) != [] ==> forall x ::
      IsArsonist(SelectArsonist(a, players, count, le, hash, draw).access, x) <==>
      IsArsonist(a, x) || x in Chosen(players, count, le, hash, draw)
    ensures SlackerIds(players) != [] && count.GetOr(1) >= 1 ==>
      SelectArsonist(a, players, count, le, hash, draw).arsonist.Some?
  {
    var c := Chosen(players, count, le, hash, draw);
    if SlackerIds(players) != [] {
      forall x {
        SetAllMembers(a, c, x);
      }
      if count.GetOr(1) >= 1 {
        assert c[0] in c;
      }
    }
  }

  /** For one hash function and one name comparer, the selection depends
      only on the multiset of Slacker ids, not on how the player list is
      ordered. Two clients agree only if they also share the hash and the
      comparer. */
  lemma SelectionDeterministic(a: Access, p1: seq<PlayerInfo>, p2: seq<PlayerInfo>, count: Option<int>,
                               le: (string, string) -> bool, hash: string -> int,
                               draw: (int, nat, nat) -> nat)
    requires Valid(a)
    requires BoundedRng(draw)
    requires TotalOrder(le)
    requires multiset(SlackerIds(p1)) == multiset(SlackerIds(p2))
    ensures SelectArsonist(a, p1, count, le, hash, draw) == SelectArsonist(a, p2, count, le, hash, draw)
  {
    SortByCanonical(le, SlackerIds(p1), SlackerIds(p2));
    assert |SlackerIds(p1)| == |multiset(SlackerIds(p1))| == |SlackerIds(p2)|;
  }
}
