/**
  The names of dynamically calculated profiles, which say what the headroom was
  calculated from, and when two names are the same.
 */
module ProfileNames {
  import opened BufferTypes
  import opened Texts

  /** Ports with 8 lanes have their own profiles, except at the speeds that always take 8. */
  predicate EightLanes(speed: string, lanes: int, platform: string, model: nat) {
    && platform == "mellanox" && lanes == 8
    && ((model / 1000 == 4 && speed != "400000") || (model / 1000 == 5 && speed != "800000"))
  }

  /** getDynamicProfileName */
  function DynamicProfileName(p: Params, threshold: string, defaultThreshold: string, platform: string,
                              model: nat): (name: string)
    ensures name != "" && name[0] == 'p'
  {
    "pg_lossless_" + p.speed + "_" + p.cable
    + (if p.mtu == DEFAULT_MTU then "" else "_mtu" + p.mtu)
    + (if threshold != defaultThreshold then "_th" + threshold else "")
    + (if p.gearbox != "" then "_" + p.gearbox else "")
    + (if EightLanes(p.speed, p.lanes, platform, model) then "_8lane" else "")
    + "_profile"
  }

  // ---------- what a name says ----------

  /** The parts of a name that are not always there. */
  function Listed(hasMtu: bool, mtu: string, hasTh: bool, th: string, gearbox: string, lanes: bool): seq<string> {
    (if hasMtu then ["mtu" + mtu] else []) + (if hasTh then ["th" + th] else [])
    + (if gearbox != "" then [gearbox] else []) + (if lanes then ["8lane"] else [])
  }

  function Middle(p: Params, threshold: string, defaultThreshold: string, platform: string, model: nat): seq<string> {
    Listed(p.mtu != DEFAULT_MTU, p.mtu, threshold != defaultThreshold, threshold, p.gearbox,
           EightLanes(p.speed, p.lanes, platform, model))
  }

  function Parts(p: Params, threshold: string, defaultThreshold: string, platform: string, model: nat): seq<string> {
    ["pg", "lossless", p.speed, p.cable] + Middle(p, threshold, defaultThreshold, platform, model) + ["profile"]
  }

  /** No text the name is made of holds the separator. */
  predicate Plain(p: Params, threshold: string) {
    '_' !in p.speed && '_' !in p.cable && '_' !in p.mtu && '_' !in threshold && '_' !in p.gearbox
  }

  /** No gearbox model could be taken for another part of a name. */
  predicate Readable(gearbox: string, platform: string, model: nat) {
    && !("mtu" <= gearbox && gearbox != "mtu" + DEFAULT_MTU) && !("th" <= gearbox)
    && !(gearbox == "8lane" && platform == "mellanox" && model / 1000 in {4, 5})
  }

  /** Two ports that may share profiles. */
  predicate SameClass(p: Params, q: Params, platform: string, model: nat) {
    && p.speed == q.speed && p.cable == q.cable && p.mtu == q.mtu && p.gearbox == q.gearbox
    && (EightLanes(p.speed, p.lanes, platform, model) <==> EightLanes(q.speed, q.lanes, platform, model))
  }

  /** Thresholds that leave the same trace in names made under two defaults. */
  predicate SameThreshold(t: string, d: string, u: string, e: string) {
    if t == d then u == e else u == t && u != e
  }

  lemma NameIsJoined(p: Params, t: string, d: string, platform: string, model: nat)
    ensures DynamicProfileName(p, t, d, platform, model) == Join(Parts(p, t, d, platform, model), '_')
  {
    var parts := ["pg", "lossless", p.speed, p.cable];
    JoinFour(p.speed, p.cable);
    var mtu := if p.mtu == DEFAULT_MTU then [] else ["mtu" + p.mtu];
    var th := if t != d then ["th" + t] else [];
    var gearbox := if p.gearbox != "" then [p.gearbox] else [];
    var lanes := if EightLanes(p.speed, p.lanes, platform, model) then ["8lane"] else [];
    AddParts(parts, mtu, th, gearbox, lanes);
    Underscored("_mtu", "mtu", p.mtu);
    Underscored("_th", "th", t);
    Underscored("_8lane", "8lane", "");
    assert "_8lane" + "" == "_8lane" && "8lane" + "" == "8lane";
    Regroup(parts, mtu, th, gearbox, lanes);
  }

  lemma Regroup(parts: seq<string>, a: seq<string>, b: seq<string>, c: seq<string>, d: seq<string>)
    ensures parts + (a + b + c + d) + ["profile"] == parts + a + b + c + d + ["profile"]
  {
    assert parts + (a + b + c + d) == parts + a + b + c + d;
  }

  lemma Underscored(with: string, without: string, rest: string)
    requires |with| == |without| + 1 && with[0] == '_' && with[1..] == without
    ensures with + rest == "_" + (without + rest)
  {
  }

  lemma JoinFour(speed: string, cable: string)
    ensures Join(["pg", "lossless", speed, cable], '_') == "pg_lossless_" + speed + "_" + cable
  {
    JoinSnoc(["pg"], "lossless", '_');
    JoinSnoc(["pg", "lossless"], speed, '_');
    JoinSnoc(["pg", "lossless", speed], cable, '_');
    assert ["pg"] + ["lossless"] == ["pg", "lossless"];
    assert ["pg", "lossless"] + [speed] == ["pg", "lossless", speed];
    assert ["pg", "lossless", speed] + [cable] == ["pg", "lossless", speed, cable];
  }

  function Suffix(more: seq<string>): string
    requires |more| <= 1
  {
    if more == [] then "" else "_" + more[0]
  }

  lemma AddParts(parts: seq<string>, a: seq<string>, b: seq<string>, c: seq<string>, d: seq<string>)
    requires |parts| > 0 && |a| <= 1 && |b| <= 1 && |c| <= 1 && |d| <= 1
    ensures Join(parts + a + b + c + d + ["profile"], '_')
            == Join(parts, '_') + Suffix(a) + Suffix(b) + Suffix(c) + Suffix(d) + "_profile"
  {
    assert Suffix(["profile"]) == "_profile";
    AddTwo(parts, a, b);
    AddTwo(parts + a + b, c, d);
    AddPart(parts + a + b + c + d, ["profile"]);
  }

  lemma AddTwo(parts: seq<string>, a: seq<string>, b: seq<string>)
    requires |parts| > 0 && |a| <= 1 && |b| <= 1
    ensures Join(parts + a + b, '_') == Join(parts, '_') + Suffix(a) + Suffix(b)
  {
    AddPart(parts, a);
    AddPart(parts + a, b);
  }

  /** An optional part adds itself after a separator. */
  lemma AddPart(parts: seq<string>, more: seq<string>)
    requires |parts| > 0 && |more| <= 1
    ensures Join(parts + more, '_') == Join(parts, '_') + Suffix(more)
  {
    if more == [] {
      assert parts + more == parts;
    } else {
      assert more == [more[0]];
      JoinSnoc(parts, more[0], '_');
    }
  }

  lemma PartsFromName(p: Params, t: string, d: string, q: Params, u: string, e: string, platform: string, model: nat)
    requires Plain(p, t) && Plain(q, u)
    requires DynamicProfileName(p, t, d, platform, model) == DynamicProfileName(q, u, e, platform, model)
    ensures p.speed == q.speed && p.cable == q.cable
    ensures Middle(p, t, d, platform, model) == Middle(q, u, e, platform, model)
  {
    var a, b := Parts(p, t, d, platform, model), Parts(q, u, e, platform, model);
    NameIsJoined(p, t, d, platform, model);
    NameIsJoined(q, u, e, platform, model);
    PartsArePlain(p, t, d, platform, model);
    PartsArePlain(q, u, e, platform, model);
    SplitJoin(a, '_');
    SplitJoin(b, '_');
    FromParts(p.speed, p.cable, Middle(p, t, d, platform, model), q.speed, q.cable, Middle(q, u, e, platform, model));
  }

  lemma PartsArePlain(p: Params, t: string, d: string, platform: string, model: nat)
    requires Plain(p, t)
    ensures forall part <- Parts(p, t, d, platform, model) :: '_' !in part
  {
  }

  lemma FromParts(a: string, b: string, m: seq<string>, c: string, d: string, n: seq<string>)
    requires ["pg", "lossless", a, b] + m + ["profile"] == ["pg", "lossless", c, d] + n + ["profile"]
    ensures a == c && b == d && m == n
  {
    var x, y := ["pg", "lossless", a, b] + m + ["profile"], ["pg", "lossless", c, d] + n + ["profile"];
    assert x[2] == a && x[3] == b && y[2] == c && y[3] == d;
    assert x[4..|x| - 1] == m && y[4..|y| - 1] == n;
  }

  /** With one gearbox model, names are the same exactly when everything in them is. */
  lemma NameDetermines(p: Params, t: string, d: string, q: Params, u: string, e: string, platform: string, model: nat)
    requires Plain(p, t) && Plain(q, u)
    ensures DynamicProfileName(p, t, d, platform, model) == DynamicProfileName(q, u, e, platform, model)
            && p.gearbox == q.gearbox
            <==> SameClass(p, q, platform, model) && SameThreshold(t, d, u, e)
  {
    if DynamicProfileName(p, t, d, platform, model) == DynamicProfileName(q, u, e, platform, model)
       && p.gearbox == q.gearbox
    {
      PartsFromName(p, t, d, q, u, e, platform, model);
      MiddleDetermines(p, t, d, q, u, e, platform, model);
    }
  }

  lemma MiddleDetermines(p: Params, t: string, d: string, q: Params, u: string, e: string, platform: string, model: nat)
    requires p.speed == q.speed && p.cable == q.cable && p.gearbox == q.gearbox
    requires Middle(p, t, d, platform, model) == Middle(q, u, e, platform, model)
    ensures SameClass(p, q, platform, model) && SameThreshold(t, d, u, e)
  {
    ListedOnce(p.mtu != DEFAULT_MTU, p.mtu, t != d, t, p.gearbox, EightLanes(p.speed, p.lanes, platform, model),
               q.mtu != DEFAULT_MTU, q.mtu, u != e, u, EightLanes(q.speed, q.lanes, platform, model));
  }

  /** Around one gearbox model, a list tells which parts are in it. */
  lemma ListedOnce(m1: bool, mtu1: string, t1: bool, th1: string, gearbox: string, l1: bool,
                   m2: bool, mtu2: string, t2: bool, th2: string, l2: bool)
    requires Listed(m1, mtu1, t1, th1, gearbox, l1) == Listed(m2, mtu2, t2, th2, gearbox, l2)
    ensures m1 == m2 && (m1 ==> mtu1 == mtu2) && t1 == t2 && (t1 ==> th1 == th2) && l1 == l2
  {
    ListedOthers(m1, mtu1, t1, th1, gearbox, l1);
    ListedOthers(m2, mtu2, t2, th2, gearbox, l2);
    var g := if gearbox != "" then multiset{gearbox} else multiset{};
    var a, b := Others(m1, mtu1, t1, th1, l1), Others(m2, mtu2, t2, th2, l2);
    SameLess(a, b, g);
    OthersTell(m1, mtu1, t1, th1, l1, m2, mtu2, t2, th2, l2);
    OthersTell(m2, mtu2, t2, th2, l2, m1, mtu1, t1, th1, l1);
  }

  lemma SameLess(a: multiset<string>, b: multiset<string>, g: multiset<string>)
    requires a + g == b + g
    ensures a == b
  {
    assert (a + g) - g == a && (b + g) - g == b;
  }

  lemma OthersTell(m1: bool, mtu1: string, t1: bool, th1: string, l1: bool,
                   m2: bool, mtu2: string, t2: bool, th2: string, l2: bool)
    requires Others(m1, mtu1, t1, th1, l1) == Others(m2, mtu2, t2, th2, l2)
    ensures (m1 ==> m2 && mtu1 == mtu2) && (t1 ==> t2 && th1 == th2) && (l1 ==> l2)
  {
    OthersHold(m1, mtu1, t1, th1, l1);
    OthersHold(m2, mtu2, t2, th2, l2);
    assert ("mtu" + mtu1)[3..] == mtu1 && ("mtu" + mtu2)[3..] == mtu2;
    assert ("th" + th1)[2..] == th1 && ("th" + th2)[2..] == th2;
    assert m1 ==> "mtu" + mtu1 in Others(m2, mtu2, t2, th2, l2);
    assert t1 ==> "th" + th1 in Others(m2, mtu2, t2, th2, l2);
  }

  /** The parts but for the gearbox model. */
  ghost function Others(m: bool, mtu: string, t: bool, th: string, lanes: bool): multiset<string> {
    (if m then multiset{"mtu" + mtu} else multiset{}) + (if t then multiset{"th" + th} else multiset{})
    + (if lanes then multiset{"8lane"} else multiset{})
  }

  lemma ListedOthers(m: bool, mtu: string, t: bool, th: string, gearbox: string, lanes: bool)
    ensures multiset(Listed(m, mtu, t, th, gearbox, lanes))
            == Others(m, mtu, t, th, lanes) + (if gearbox != "" then multiset{gearbox} else multiset{})
  {
  }

  lemma OthersHold(m: bool, mtu: string, t: bool, th: string, lanes: bool)
    ensures forall x: string :: "mtu" + x in Others(m, mtu, t, th, lanes) <==> m && "mtu" + x == "mtu" + mtu
    ensures forall x: string :: "th" + x in Others(m, mtu, t, th, lanes) <==> t && "th" + x == "th" + th
    ensures "8lane" in Others(m, mtu, t, th, lanes) <==> lanes
  {
    forall x: string ensures ("mtu" + x)[0] == 'm' && ("th" + x)[0] == 't' {
    }
    assert "8lane"[0] == '8' && ("mtu" + mtu)[0] == 'm' && ("th" + th)[0] == 't';
  }

  /** A name made under one default threshold is made under another exactly when it tells the threshold. */
  lemma SameUnderBoth(p: Params, t: string, d: string, e: string, platform: string, model: nat)
    requires d != e
    ensures DynamicProfileName(p, t, d, platform, model) == DynamicProfileName(p, t, e, platform, model)
            <==> t != d && t != e
  {
    assert |DynamicProfileName(p, t, d, platform, model)| - |DynamicProfileName(p, t, e, platform, model)|
      == (if t != d then 3 + |t| else 0) - (if t != e then 3 + |t| else 0);
  }

  /** A default threshold leaves no trace. */
  lemma SameDefaultName(p: Params, d: string, e: string, platform: string, model: nat)
    ensures DynamicProfileName(p, d, d, platform, model) == DynamicProfileName(p, e, e, platform, model)
  {
  }

  // ---------- gearbox models that can be told apart ----------

  lemma MiddleHolds(p: Params, t: string, d: string, platform: string, model: nat)
    ensures multiset(Middle(p, t, d, platform, model))
            == Others(p.mtu != DEFAULT_MTU, p.mtu, t != d, t, EightLanes(p.speed, p.lanes, platform, model))
               + (if p.gearbox != "" then multiset{p.gearbox} else multiset{})
  {
    ListedOthers(p.mtu != DEFAULT_MTU, p.mtu, t != d, t, p.gearbox, EightLanes(p.speed, p.lanes, platform, model));
  }

  /** A gearbox model in the name of other parameters is theirs as well, or one of the other parts. */
  lemma GearboxIn(p: Params, t: string, d: string, q: Params, u: string, e: string, platform: string, model: nat)
    requires Middle(p, t, d, platform, model) == Middle(q, u, e, platform, model)
    requires p.gearbox != "" && Readable(p.gearbox, platform, model)
    ensures p.gearbox == q.gearbox
  {
    MiddleHolds(p, t, d, platform, model);
    MiddleHolds(q, u, e, platform, model);
    assert p.gearbox in multiset(Middle(p, t, d, platform, model));
    OthersAreNot(q, u, e, platform, model, p.gearbox);
  }

  lemma OthersAreNot(q: Params, u: string, e: string, platform: string, model: nat, gearbox: string)
    requires Readable(gearbox, platform, model)
    ensures gearbox !in Others(q.mtu != DEFAULT_MTU, q.mtu, u != e, u, EightLanes(q.speed, q.lanes, platform, model))
  {
    assert ("mtu" + q.mtu)[3..] == q.mtu && ("mtu" + DEFAULT_MTU)[3..] == DEFAULT_MTU;
  }

  /** With gearbox models that can be told apart, names are the same exactly when everything in them is. */
  lemma ReadableNames(p: Params, t: string, d: string, q: Params, u: string, e: string, platform: string, model: nat)
    requires Plain(p, t) && Plain(q, u)
    requires Readable(p.gearbox, platform, model) && Readable(q.gearbox, platform, model)
    ensures DynamicProfileName(p, t, d, platform, model) == DynamicProfileName(q, u, e, platform, model)
            <==> SameClass(p, q, platform, model) && SameThreshold(t, d, u, e)
  {
    NameDetermines(p, t, d, q, u, e, platform, model);
    if DynamicProfileName(p, t, d, platform, model) == DynamicProfileName(q, u, e, platform, model) {
      PartsFromName(p, t, d, q, u, e, platform, model);
      if p.gearbox != "" {
        GearboxIn(p, t, d, q, u, e, platform, model);
      } else if q.gearbox != "" {
        GearboxIn(q, u, e, p, t, d, platform, model);
      }
    }
  }

  /** Two ports with and without the gearbox model, and thresholds and a default, that share a name. */
  ghost predicate Collide(gearbox: string, p: Params, t: string, q: Params, u: string, d: string, platform: string,
                          model: nat) {
    && Plain(p, t) && Plain(q, u) && p.gearbox == gearbox && q.gearbox == ""
    && DynamicProfileName(p, t, d, platform, model) == DynamicProfileName(q, u, d, platform, model)
  }

  /** A gearbox model can be mistaken for something else exactly when it is not readable. */
  lemma ReadableIffNoCollision(gearbox: string, platform: string, model: nat)
    requires gearbox != "" && '_' !in gearbox
    ensures Readable(gearbox, platform, model) <==>
      !exists p, t, q, u, d :: Collide(gearbox, p, t, q, u, d, platform, model)
  {
    if Readable(gearbox, platform, model) {
      forall p, t, q, u, d ensures !Collide(gearbox, p, t, q, u, d, platform, model) {
        if Collide(gearbox, p, t, q, u, d, platform, model) {
          PartsFromName(p, t, d, q, u, d, platform, model);
          GearboxIn(p, t, d, q, u, d, platform, model);
        }
      }
    } else {
      var p, t, q, u, d := Collision(gearbox, platform, model);
    }
  }

  lemma Collision(gearbox: string, platform: string, model: nat)
    returns (p: Params, t: string, q: Params, u: string, d: string)
    requires gearbox != "" && '_' !in gearbox && !Readable(gearbox, platform, model)
    ensures Collide(gearbox, p, t, q, u, d, platform, model)
  {
    p, q := Params("100000", "5m", DEFAULT_MTU, gearbox, 4), Params("100000", "5m", DEFAULT_MTU, "", 4);
    t, u, d := "0", "0", "0";
    if "mtu" <= gearbox && gearbox != "mtu" + DEFAULT_MTU {
      q := q.(mtu := gearbox[3..]);
      assert "mtu" + q.mtu == gearbox;
    } else if "th" <= gearbox {
      u := gearbox[2..];
      d := u + "0";
      t := d;
      assert "th" + u == gearbox;
      assert |d| == |u| + 1;
    } else {
      q := q.(lanes := 8);
      assert gearbox == "8lane";
    }
    assert Middle(p, t, d, platform, model) == [gearbox] == Middle(q, u, d, platform, model);
    NameIsJoined(p, t, d, platform, model);
    NameIsJoined(q, u, d, platform, model);
  }

  /** A separator inside a text is a collision as well. */
  lemma NotPlain(d: string, platform: string, model: nat) returns (p: Params, q: Params)
    ensures p.cable != q.cable && p.gearbox == q.gearbox && p.mtu != q.mtu
    ensures DynamicProfileName(p, d, d, platform, model) == DynamicProfileName(q, d, d, platform, model)
  {
    p := Params("100000", "5m_mtu1500", DEFAULT_MTU, "", 4);
    q := Params("100000", "5m", "1500", "", 4);
    assert "5m" + "_mtu1500" == "5m_mtu1500" && "_mtu" + "1500" == "_mtu1500";
  }
}
