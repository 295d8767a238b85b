/** The tampered-detector clue: a non-arsonist standing within reach of a
    jammed smoke detector is told about it, at most once a minute for each
    (player, detector) pair, and only on that player's own client. */
module SmokeDetectorClue {
  import opened Common
  import opened Text
  import opened PlayerAccess
  import SmokeDetectorTask
  import FireNotifications

  const ClueCooldown: real := 60.0

  /** A detector in the scene with its Unity instance id. */
  datatype Watched = Watched(instance: int, detector: SmokeDetectorTask.Detector)

  /** A player this frame: id, whether it is the local player, and the
      instance ids of the detectors within the detection radius (3 m). */
  datatype Observer = Observer(id: string, isLocal: bool, near: set<int>)

  /** When each (player, detector) key was last notified. */
  type Notified = map<string, real>

  /** The dictionary key "<player>_<instance id>". */
  function Key(player: string, instance: int): string {
    player + "_" + IntToString(instance)
  }

  lemma NoUnderscoreInNumber(n: nat)
    ensures '_' !in NatToString(n)
  {
    var s := NatToString(n);
    forall i | 0 <= i < |s| ensures s[i] != '_' {
      assert IsDigit(s[i]);
    }
  }

  /** The text after the last underscore. */
  function LastPiece(k: string): (r: string)
    ensures '_' !in r
  {
    if |k| == 0 || k[|k| - 1] == '_' then "" else LastPiece(k[..|k| - 1]) + [k[|k| - 1]]
  }

  lemma {:induction false} LastPieceOfKey(p: string, s: string)
    requires '_' !in s
    ensures LastPiece(p + "_" + s) == s
    decreases |s|
  {
    if |s| > 0 {
      var k := p + "_" + s;
      assert k[..|k| - 1] == p + "_" + s[..|s| - 1];
      LastPieceOfKey(p, s[..|s| - 1]);
      assert s == s[..|s| - 1] + [s[|s| - 1]];
    }
  }

  lemma NumberHasNoUnderscore(i: int)
    ensures '_' !in IntToString(i)
  {
    NoUnderscoreInNumber(if i < 0 then -i else i);
    if i < 0 {
      assert IntToString(i) == "-" + NatToString(-i);
    }
  }

  /** Distinct pairs never share a key, because an instance id is written
      without an underscore. */
  lemma KeyInjective(p1: string, i1: int, p2: string, i2: int)
    requires Key(p1, i1) == Key(p2, i2)
    ensures p1 == p2 && i1 == i2
  {
    var s1, s2 := IntToString(i1), IntToString(i2);
    NumberHasNoUnderscore(i1);
    NumberHasNoUnderscore(i2);
    LastPieceOfKey(p1, s1);
    LastPieceOfKey(p2, s2);
    var k := Key(p1, i1);
    assert s1 == s2;
    assert p1 == k[..|p1|] == p2;
    IntToStringInjective(i1, i2);
  }

  lemma IntToStringInjective(a: int, b: int)
    requires IntToString(a) == IntToString(b)
    ensures a == b
  {
    if IsInt32(a) && IsInt32(b) {
      IntToStringRoundTrip(a);
      IntToStringRoundTrip(b);
    } else {
      NatToStringValue(if a < 0 then -a else a);
      NatToStringValue(if b < 0 then -b else b);
      var sa, sb := IntToString(a), IntToString(b);
      if a < 0 { assert sa[1..] == NatToString(-a); }
      if b < 0 { assert sb[1..] == NatToString(-b); }
      assert (a < 0) == (sa[0] == '-');
      assert (b < 0) == (sb[0] == '-');
    }
  }

  /** Arsonists, unjammed detectors and detectors out of reach never count. */
  predicate Eligible(access: Access, p: Observer, w: Watched) {
    !IsArsonist(access, p.id) && w.detector.jammed && w.instance in p.near
  }

  /** No notification for this key within the cooldown. */
  predicate Due(m: Notified, key: string, now: real) {
    key !in m || now - m[key] >= ClueCooldown
  }

  datatype Visit = Visit(notified: Notified, clues: seq<FireNotifications.Clue>)

  /** Keys already known keep their time or take `now`; nothing but `now`
      is ever written. */
  ghost predicate Advances(m: Notified, r: Notified, now: real) {
    && (forall k :: k in m ==> k in r && (r[k] == m[k] || r[k] == now))
    && (forall k :: k in r && k !in m ==> r[k] == now)
  }

  /** One player against every detector, in order. */
  function VisitDetectors(m: Notified, access: Access, p: Observer, ws: seq<Watched>, now: real): (r: Visit)
    ensures Advances(m, r.notified, now)
    ensures forall c :: c in r.clues ==>
      p.isLocal && !IsArsonist(access, p.id) && c == FireNotifications.TamperedDetectorClue(p.id)
    decreases |ws|
  {
    if |ws| == 0 then Visit(m, [])
    else
      var w := ws[0];
      var key := Key(p.id, w.instance);
      if !Eligible(access, p, w) || !Due(m, key, now) then VisitDetectors(m, access, p, ws[1..], now)
      else
        var rest := VisitDetectors(m[key := now], access, p, ws[1..], now);
        var shown := if p.isLocal then [FireNotifications.TamperedDetectorClue(p.id)] else [];
        Visit(rest.notified, shown + rest.clues)
  }

  /** Within the cooldown a key keeps its stamp. */
  lemma {:induction false} VisitDetectorsKeeps(m: Notified, access: Access, p: Observer, ws: seq<Watched>, now: real)
    ensures var r := VisitDetectors(m, access, p, ws, now).notified;
      forall k :: k in m && !Due(m, k, now) ==> r[k] == m[k]
    decreases |ws|
  {
    if |ws| > 0 {
      var key := Key(p.id, ws[0].instance);
      if !Eligible(access, p, ws[0]) || !Due(m, key, now) {
        VisitDetectorsKeeps(m, access, p, ws[1..], now);
      } else {
        VisitDetectorsKeeps(m[key := now], access, p, ws[1..], now);
      }
    }
  }

  /** An eligible key outside its cooldown is stamped with `now`. */
  lemma {:induction false} VisitDetectorsStampsDue(m: Notified, access: Access, p: Observer, ws: seq<Watched>, now: real)
    ensures var r := VisitDetectors(m, access, p, ws, now).notified;
      forall j :: 0 <= j < |ws| && Eligible(access, p, ws[j]) && Due(m, Key(p.id, ws[j].instance), now) ==>
        Key(p.id, ws[j].instance) in r && r[Key(p.id, ws[j].instance)] == now
    decreases |ws|
  {
    if |ws| > 0 {
      var key := Key(p.id, ws[0].instance);
      assert forall j :: 0 < j < |ws| ==> ws[j] == ws[1..][j - 1];
      if !Eligible(access, p, ws[0]) || !Due(m, key, now) {
        VisitDetectorsStampsDue(m, access, p, ws[1..], now);
      } else {
        VisitDetectorsStampsDue(m[key := now], access, p, ws[1..], now);
      }
    }
  }

  /** Only the keys of eligible pairs change. */
  lemma {:induction false} VisitDetectorsOnlyEligible(m: Notified, access: Access, p: Observer, ws: seq<Watched>, now: real)
    ensures var r := VisitDetectors(m, access, p, ws, now).notified;
      forall k :: k in r && (k !in m || r[k] != m[k]) ==>
        exists j :: 0 <= j < |ws| && Eligible(access, p, ws[j]) && k == Key(p.id, ws[j].instance)
    decreases |ws|
  {
    if |ws| > 0 {
      var key := Key(p.id, ws[0].instance);
      assert forall j :: 0 < j < |ws| ==> ws[j] == ws[1..][j - 1];
      var r := VisitDetectors(m, access, p, ws, now).notified;
      if !Eligible(access, p, ws[0]) || !Due(m, key, now) {
        VisitDetectorsOnlyEligible(m, access, p, ws[1..], now);
      } else {
        var m1 := m[key := now];
        VisitDetectorsOnlyEligible(m1, access, p, ws[1..], now);
        forall k | k in r && (k !in m || r[k] != m[k])
          ensures exists j :: 0 <= j < |ws| && Eligible(access, p, ws[j]) && k == Key(p.id, ws[j].instance)
        {
          if k == key {
            assert Eligible(access, p, ws[0]) && k == Key(p.id, ws[0].instance);
          } else {
            assert k in r && (k !in m1 || r[k] != m1[k]);
            var j' :| 0 <= j' < |ws[1..]| && Eligible(access, p, ws[1..][j']) && k == Key(p.id, ws[1..][j'].instance);
            assert ws[j' + 1] == ws[1..][j'];
          }
        }
      }
    }
  }

  /** A local non-arsonist near a jammed detector whose cooldown has passed
      is shown the tampered-detector clue. */
  lemma {:induction false} VisitDetectorsShowsDue(m: Notified, access: Access, p: Observer, ws: seq<Watched>,
                                                  now: real, j: int)
    requires 0 <= j < |ws| && p.isLocal
    requires Eligible(access, p, ws[j]) && Due(m, Key(p.id, ws[j].instance), now)
    ensures FireNotifications.TamperedDetectorClue(p.id) in VisitDetectors(m, access, p, ws, now).clues
    decreases |ws|
  {
    var key := Key(p.id, ws[0].instance);
    if Eligible(access, p, ws[0]) && Due(m, key, now) {
      var rest := VisitDetectors(m[key := now], access, p, ws[1..], now);
      assert VisitDetectors(m, access, p, ws, now).clues == [FireNotifications.TamperedDetectorClue(p.id)] + rest.clues;
    } else {
      assert j > 0;
      assert ws[1..][j - 1] == ws[j];
      VisitDetectorsShowsDue(m, access, p, ws[1..], now, j - 1);
    }
  }

  /** Every player that is not an arsonist against every detector. */
  function VisitPlayers(m: Notified, access: Access, ps: seq<Observer>, ws: seq<Watched>, now: real): (r: Visit)
    ensures Advances(m, r.notified, now)
    ensures forall c :: c in r.clues ==>
      exists i :: 0 <= i < |ps| && ps[i].isLocal && !IsArsonist(access, ps[i].id) &&
                  c == FireNotifications.TamperedDetectorClue(ps[i].id)
    decreases |ps|
  {
    if |ps| == 0 then Visit(m, [])
    else
      var p := ps[0];
      assert forall i :: 0 < i < |ps| ==> ps[i] == ps[1..][i - 1];
      var first := if IsArsonist(access, p.id) then Visit(m, []) else VisitDetectors(m, access, p, ws, now);
      var rest := VisitPlayers(first.notified, access, ps[1..], ws, now);
      Visit(rest.notified, first.clues + rest.clues)
  }

  /** Across all players, a local non-arsonist near a jammed detector whose
      cooldown has passed is shown the clue, provided no earlier entry of
      the player list carries the same id (an earlier entry would have
      stamped the shared key first). */
  lemma {:induction false} VisitPlayersShowsDue(m: Notified, access: Access, ps: seq<Observer>, ws: seq<Watched>,
                                                now: real, i: int, j: int)
    requires 0 <= i < |ps| && 0 <= j < |ws| && ps[i].isLocal
    requires Eligible(access, ps[i], ws[j]) && Due(m, Key(ps[i].id, ws[j].instance), now)
    requires forall h :: 0 <= h < i ==> ps[h].id != ps[i].id
    ensures FireNotifications.TamperedDetectorClue(ps[i].id) in VisitPlayers(m, access, ps, ws, now).clues
    decreases |ps|
  {
    var p := ps[0];
    var first := if IsArsonist(access, p.id) then Visit(m, []) else VisitDetectors(m, access, p, ws, now);
    var rest := VisitPlayers(first.notified, access, ps[1..], ws, now);
    assert VisitPlayers(m, access, ps, ws, now).clues == first.clues + rest.clues;
    if i == 0 {
      VisitDetectorsShowsDue(m, access, p, ws, now, j);
    } else {
      var k := Key(ps[i].id, ws[j].instance);
      if !IsArsonist(access, p.id) {
        VisitDetectorsOnlyEligible(m, access, p, ws, now);
        if k in first.notified && (k !in m || first.notified[k] != m[k]) {
          var j' :| 0 <= j' < |ws| && Eligible(access, p, ws[j']) && k == Key(p.id, ws[j'].instance);
          KeyInjective(p.id, ws[j'].instance, ps[i].id, ws[j].instance);
          assert false;
        }
      }
      assert Due(first.notified, k, now);
      assert ps[1..][i - 1] == ps[i];
      assert forall h :: 0 <= h < i - 1 ==> ps[1..][h] == ps[h + 1];
      VisitPlayersShowsDue(first.notified, access, ps[1..], ws, now, i - 1, j);
    }
  }

  lemma {:induction false} VisitPlayersKeeps(m: Notified, access: Access, ps: seq<Observer>, ws: seq<Watched>, now: real)
    ensures var r := VisitPlayers(m, access, ps, ws, now).notified;
      forall k :: k in m && !Due(m, k, now) ==> r[k] == m[k]
    decreases |ps|
  {
    if |ps| > 0 {
      var p := ps[0];
      var first := if IsArsonist(access, p.id) then Visit(m, []) else VisitDetectors(m, access, p, ws, now);
      if !IsArsonist(access, p.id) {
        VisitDetectorsKeeps(m, access, p, ws, now);
      }
      VisitPlayersKeeps(first.notified, access, ps[1..], ws, now);
    }
  }

  lemma {:induction false} VisitPlayersStampsDue(m: Notified, access: Access, ps: seq<Observer>, ws: seq<Watched>, now: real)
    ensures var r := VisitPlayers(m, access, ps, ws, now).notified;
      forall i, j ::
        0 <= i < |ps| && 0 <= j < |ws| && Eligible(access, ps[i], ws[j]) &&
        Due(m, Key(ps[i].id, ws[j].instance), now) ==>
        Key(ps[i].id, ws[j].instance) in r && r[Key(ps[i].id, ws[j].instance)] == now
    decreases |ps|
  {
    if |ps| > 0 {
      var p := ps[0];
      assert forall i :: 0 < i < |ps| ==> ps[i] == ps[1..][i - 1];
      var first := if IsArsonist(access, p.id) then Visit(m, []) else VisitDetectors(m, access, p, ws, now);
      if !IsArsonist(access, p.id) {
        VisitDetectorsStampsDue(m, access, p, ws, now);
      }
      VisitPlayersStampsDue(first.notified, access, ps[1..], ws, now);
    }
  }

  lemma {:induction false} VisitPlayersOnlyEligible(m: Notified, access: Access, ps: seq<Observer>, ws: seq<Watched>, now: real)
    ensures var r := VisitPlayers(m, access, ps, ws, now).notified;
      forall k :: k in r && (k !in m || r[k] != m[k]) ==>
        exists i, j :: 0 <= i < |ps| && 0 <= j < |ws| && Eligible(access, ps[i], ws[j]) &&
          k == Key(ps[i].id, ws[j].instance)
    decreases |ps|
  {
    if |ps| > 0 {
      var p := ps[0];
      assert forall i :: 0 < i < |ps| ==> ps[i] == ps[1..][i - 1];
      var first := if IsArsonist(access, p.id) then Visit(m, []) else VisitDetectors(m, access, p, ws, now);
      if !IsArsonist(access, p.id) {
        VisitDetectorsOnlyEligible(m, access, p, ws, now);
      }
      VisitPlayersOnlyEligible(first.notified, access, ps[1..], ws, now);
      var m1 := first.notified;
      var r := VisitPlayers(m, access, ps, ws, now).notified;
      forall k | k in r && (k !in m || r[k] != m[k])
        ensures exists i, j ::
          0 <= i < |ps| && 0 <= j < |ws| && Eligible(access, ps[i], ws[j]) && k == Key(ps[i].id, ws[j].instance)
      {
        if k in m1 && r[k] == m1[k] {
          var j :| 0 <= j < |ws| && Eligible(access, p, ws[j]) && k == Key(p.id, ws[j].instance);
          assert Eligible(access, ps[0], ws[j]) && k == Key(ps[0].id, ws[j].instance);
        } else {
          var i', j :| 0 <= i' < |ps[1..]| && 0 <= j < |ws| && Eligible(access, ps[1..][i'], ws[j]) &&
            k == Key(ps[1..][i'].id, ws[j].instance);
          assert ps[i' + 1] == ps[1..][i'];
        }
      }
    }
  }

  /** One frame of the clue monitor; with no detector in the scene it does
      nothing. */
  function Update(m: Notified, access: Access, ps: seq<Observer>, ws: seq<Watched>, now: real): (r: Visit)
    ensures |ws| == 0 ==> r == Visit(m, [])
    ensures Advances(m, r.notified, now)
    ensures forall c :: c in r.clues ==> c.target.Some? && !IsArsonist(access, c.target.value)
  {
    if |ws| == 0 then Visit(m, []) else VisitPlayers(m, access, ps, ws, now)
  }

  /** A pair notified less than a minute ago is not notified again, and its
      time stamp stays. */
  lemma CooldownHolds(m: Notified, access: Access, ps: seq<Observer>, ws: seq<Watched>, now: real,
                      player: string, instance: int)
    requires Key(player, instance) in m && now - m[Key(player, instance)] < ClueCooldown
    ensures Update(m, access, ps, ws, now).notified[Key(player, instance)] == m[Key(player, instance)]
  {
    VisitPlayersKeeps(m, access, ps, ws, now);
  }

  /** Every eligible pair outside its cooldown is stamped with this frame's
      time, whether or not the player is the local one. */
  lemma EligiblePairsStamped(m: Notified, access: Access, ps: seq<Observer>, ws: seq<Watched>, now: real,
                             i: int, j: int)
    requires 0 <= i < |ps| && 0 <= j < |ws|
    requires Eligible(access, ps[i], ws[j]) && Due(m, Key(ps[i].id, ws[j].instance), now)
    ensures var r := Update(m, access, ps, ws, now).notified;
      Key(ps[i].id, ws[j].instance) in r && r[Key(ps[i].id, ws[j].instance)] == now
  {
    VisitPlayersStampsDue(m, access, ps, ws, now);
  }

  /** The clue itself: a local player who is not an arsonist, near a jammed
      detector and outside that pair's cooldown, is shown the
      tampered-detector clue this frame. */
  lemma DuePairsSeeClue(m: Notified, access: Access, ps: seq<Observer>, ws: seq<Watched>, now: real,
                        i: int, j: int)
    requires 0 <= i < |ps| && 0 <= j < |ws| && ps[i].isLocal
    requires Eligible(access, ps[i], ws[j]) && Due(m, Key(ps[i].id, ws[j].instance), now)
    requires forall h :: 0 <= h < i ==> ps[h].id != ps[i].id
    ensures FireNotifications.TamperedDetectorClue(ps[i].id) in Update(m, access, ps, ws, now).clues
  {
    VisitPlayersShowsDue(m, access, ps, ws, now, i, j);
  }

  /** A pair gets a new stamp only if it is eligible: a non-arsonist near a
      jammed detector. */
  lemma OnlyEligibleStamped(m: Notified, access: Access, ps: seq<Observer>, ws: seq<Watched>, now: real, k: string)
    requires var r := Update(m, access, ps, ws, now).notified; k in r && (k !in m || r[k] != m[k])
    ensures exists i, j ::
      0 <= i < |ps| && 0 <= j < |ws| && Eligible(access, ps[i], ws[j]) && k == Key(ps[i].id, ws[j].instance)
  {
    VisitPlayersOnlyEligible(m, access, ps, ws, now);
  }

  /** A clue is shown only on the client of the player it is about, and that
      player is never an arsonist. */
  lemma CluesOnlyForLocalNonArsonists(m: Notified, access: Access, ps: seq<Observer>, ws: seq<Watched>,
                                      now: real, c: FireNotifications.Clue)
    requires c in Update(m, access, ps, ws, now).clues
    ensures exists i :: 0 <= i < |ps| && ps[i].isLocal && !IsArsonist(access, ps[i].id) &&
                        c.target == Some(ps[i].id)
  {
  }
}
