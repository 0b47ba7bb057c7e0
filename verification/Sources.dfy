/** A set of L1 sources: quorum reads, rotation of failed members, and a light
    client that settles disagreements. Network answers and time are
    parameters; a read may overlap others, so its answers come from any
    members, not only those in the set when it settles. */
module Sources {
  import opened Wrappers
  import opened Bytes

  datatype Member = Member(name: string, authoritative: bool, outUntil: u64)

  datatype SourceError = Provider | RateLimited | Decode | NotFinalized

  datatype SourceHalt =
    | Disagreement(aName: string, bName: string)
    | NoQuorum(answered: nat, needed: nat, configured: nat)

  datatype ReadError = Halt(halt: SourceHalt) | NoFinalizedBlock

  /** One member's answer to a read. */
  datatype Answer<+R> = Answer(member: nat, result: Result<R, SourceError>)

  const U64_MAX := 0xFFFF_FFFF_FFFF_FFFF

  // ----- the set

  function Live(members: seq<Member>, now: u64): (live: seq<nat>)
    ensures forall m: nat :: m in live <==> m < |members| && members[m].outUntil <= now
    ensures forall a :: 0 <= a < |live| ==> live[a] < |members|
    ensures forall a, b :: 0 <= a < b < |live| ==> live[a] < live[b]
  {
    if members == [] then [] else
      var m := |members| - 1;
      Live(members[..m], now) + if members[m].outUntil <= now then [m] else []
  }

  function PublicCount(members: seq<Member>): nat {
    if members == [] then 0 else
      var n := |members| - 1;
      PublicCount(members[..n]) + if members[n].authoritative then 0 else 1
  }

  function Quorum(members: seq<Member>): nat {
    if PublicCount(members) < 2 then PublicCount(members) else 2
  }

  function Until(now: u64, backoff: u64): u64 {
    if now + backoff <= U64_MAX then now + backoff else U64_MAX
  }

  /** Rotate out the members at `which`. */
  function RotateAll(members: seq<Member>, which: set<nat>, until: u64): (r: seq<Member>)
    ensures |r| == |members|
    ensures forall m :: 0 <= m < |members| ==>
              r[m] == if m in which then members[m].(outUntil := until) else members[m]
  {
    seq(|members|, m requires 0 <= m < |members| =>
      if m in which then members[m].(outUntil := until) else members[m])
  }

  // ----- settling a read

  ghost predicate FromMembers<R>(members: seq<Member>, answers: seq<Answer<R>>) {
    forall i :: 0 <= i < |answers| ==> answers[i].member < |members|
  }

  function Failed<R>(answers: seq<Answer<R>>): set<nat> {
    set i | 0 <= i < |answers| && answers[i].result.Err? :: answers[i].member
  }

  /** The answer of the light client, the last one that answered. */
  function Authority<R>(members: seq<Member>, answers: seq<Answer<R>>): (r: Option<R>)
    requires FromMembers(members, answers)
    ensures r.Some? ==>
              exists i :: 0 <= i < |answers| && members[answers[i].member].authoritative && answers[i].result == Ok(r.value)
    ensures r.None? ==>
              forall i :: 0 <= i < |answers| && members[answers[i].member].authoritative ==> answers[i].result.Err?
  {
    if answers == [] then None else
      var n := |answers| - 1;
      if answers[n].result.Ok? && members[answers[n].member].authoritative then Some(answers[n].result.value)
      else Authority(members, answers[..n])
  }

  /** The public answers, in order. */
  function Publics<R(!new)>(members: seq<Member>, answers: seq<Answer<R>>): (p: seq<(nat, R)>)
    requires FromMembers(members, answers)
    ensures |p| <= |answers|
    ensures forall x :: x in p <==>
              x.0 < |members| && !members[x.0].authoritative && Answer(x.0, Ok(x.1)) in answers
  {
    if answers == [] then [] else
      var n := |answers| - 1;
      var a := answers[n];
      assert answers == answers[..n] + [a];
      Publics(members, answers[..n])
      + if a.result.Ok? && !members[a.member].authoritative then [(a.member, a.result.value)] else []
  }

  /** The publics that answered something else than `truth`. */
  function Liars<R(==)>(publics: seq<(nat, R)>, truth: R): set<nat> {
    set i | 0 <= i < |publics| && publics[i].1 != truth :: publics[i].0
  }

  function FirstOther<R(==)>(publics: seq<(nat, R)>, truth: R): (k: Option<nat>)
    ensures k.Some? ==> k.value < |publics| && publics[k.value].1 != truth
    ensures k.None? <==> forall i :: 0 <= i < |publics| ==> publics[i].1 == truth
  {
    if publics == [] then None
    else if publics[0].1 != truth then Some(0)
    else match FirstOther(publics[1..], truth) case Some(k) => Some(k + 1) case None => None
  }

  /** The members after a read and its answer: the light client's, or the
      agreement of the quorum. */
  function Agree<R(==, !new)>(members: seq<Member>, backoff: u64, answers: seq<Answer<R>>, now: u64)
    : (seq<Member>, Result<R, ReadError>)
    requires FromMembers(members, answers)
  {
    var until := Until(now, backoff);
    var rotated := RotateAll(members, Failed(answers), until);
    var publics := Publics(members, answers);
    match Authority(members, answers)
    case Some(truth) => (RotateAll(rotated, Liars(publics, truth), until), Ok(truth))
    case None =>
      if publics == [] then (rotated, Err(Halt(NoQuorum(0, Quorum(members), |members|))))
      else if |publics| < Quorum(members) then (rotated, Err(Halt(NoQuorum(|publics|, Quorum(members), |members|))))
      else
        match FirstOther(publics[1..], publics[0].1)
        case None => (rotated, Ok(publics[0].1))
        case Some(k) => (rotated, Err(Halt(Disagreement(members[publics[0].0].name, members[publics[1 + k].0].name))))
  }

  /** The lowest of the tips, or the first member without a finalized block. */
  function MinTip(tips: seq<(nat, Option<u64>)>, lowest: u64): Result<u64, ReadError> {
    if tips == [] then Ok(lowest)
    else match tips[0].1
      case None => Err(NoFinalizedBlock)
      case Some(t) => MinTip(tips[1..], if t < lowest then t else lowest)
  }

  function LowestTip(members: seq<Member>, backoff: u64, answers: seq<Answer<Option<u64>>>, now: u64)
    : (seq<Member>, Result<u64, ReadError>)
    requires FromMembers(members, answers)
  {
    var rotated := RotateAll(members, Failed(answers), Until(now, backoff));
    var publics := Publics(members, answers);
    match Authority(members, answers)
    case Some(tip) => (rotated, if tip.Some? then Ok(tip.value) else Err(NoFinalizedBlock))
    case None =>
      if publics == [] || |publics| < Quorum(members)
      then (rotated, Err(Halt(NoQuorum(|publics|, Quorum(members), |members|))))
      else (rotated, MinTip(publics, U64_MAX))
  }

  /** The answers of a read that succeeded. */
  datatype Settled<+R> = Settled(authoritative: Option<R>, publics: seq<(nat, R)>)

  function Keep<R>(s: Settled<R>, a: Answer<R>, authoritative: bool): Settled<R> {
    if a.result.Err? then s
    else if authoritative then s.(authoritative := Some(a.result.value))
    else s.(publics := s.publics + [(a.member, a.result.value)])
  }

  lemma SettledStep<R(!new)>(members: seq<Member>, answers: seq<Answer<R>>, i: nat)
    requires FromMembers(members, answers) && i < |answers|
    ensures Settled(Authority(members, answers[..i + 1]), Publics(members, answers[..i + 1]))
            == Keep(Settled(Authority(members, answers[..i]), Publics(members, answers[..i])), answers[i],
                    members[answers[i].member].authoritative)
  {
    assert answers[..i + 1][..i] == answers[..i];
    var p := Publics(members, answers[..i]);
    assert p + [] == p;
  }

  class L1Sources {
    var members: seq<Member>
    const backoff: u64

    constructor (members: seq<Member>, backoff: u64)
      ensures this.members == members && this.backoff == backoff
    {
      this.members, this.backoff := members, backoff;
    }

    method RotateOut(m: nat, now: u64)
      requires m < |members|
      modifies this
      ensures members == RotateAll(old(members), {m}, Until(now, backoff))
    {
      var until := if now + backoff <= U64_MAX then now + backoff else U64_MAX;
      members := members[m := members[m].(outUntil := until)];
    }

    /** Sort the answers: failures cost their members a time out, the rest is kept. */
    method Settle<R(!new)>(answers: seq<Answer<R>>, now: u64) returns (settled: Settled<R>)
      requires FromMembers(members, answers)
      modifies this
      ensures members == RotateAll(old(members), Failed(answers), Until(now, backoff))
      ensures settled == Settled(Authority(old(members), answers), Publics(old(members), answers))
    {
      settled := Settled(None, []);
      for i := 0 to |answers|
        invariant FromMembers(old(members), answers[..i])
        invariant members == RotateAll(old(members), Failed(answers[..i]), Until(now, backoff))
        invariant settled == Settled(Authority(old(members), answers[..i]), Publics(old(members), answers[..i]))
      {
        FailedStep(answers, i);
        SettledStep(old(members), answers, i);
        settled := SettleOne(answers[i], now, settled);
      }
      assert answers[..|answers|] == answers;
    }

    method SettleOne<R(!new)>(answer: Answer<R>, now: u64, into: Settled<R>) returns (settled: Settled<R>)
      requires answer.member < |members|
      modifies this
      ensures members == if answer.result.Err? then RotateAll(old(members), {answer.member}, Until(now, backoff)) else old(members)
      ensures settled == Keep(into, answer, old(members)[answer.member].authoritative)
    {
      settled := into;
      match answer.result {
        case Ok(value) =>
          if members[answer.member].authoritative {
            settled := settled.(authoritative := Some(value));
          } else {
            settled := settled.(publics := settled.publics + [(answer.member, value)]);
          }
        case Err(_) =>
          RotateOut(answer.member, now);
      }
    }

    method Agreed<R(==, !new)>(answers: seq<Answer<R>>, now: u64) returns (r: Result<R, ReadError>)
      requires FromMembers(members, answers)
      modifies this
      ensures (members, r) == Agree(old(members), backoff, answers, now)
    {
      ghost var before := members;
      var settled := Settle(answers, now);
      var authoritative, publics := settled.authoritative, settled.publics;
      QuorumKept(before, members);
      if authoritative.Some? {
        RotateLiars(publics, authoritative.value, now);
        return Ok(authoritative.value);
      }
      if publics == [] {
        return Err(Halt(NoQuorum(0, Quorum(members), |members|)));
      }
      if |publics| < Quorum(members) {
        return Err(Halt(NoQuorum(|publics|, Quorum(members), |members|)));
      }
      assert publics[0] in publics;
      match FirstOther(publics[1..], publics[0].1) {
        case None =>
          return Ok(publics[0].1);
        case Some(k) =>
          assert publics[1 + k] in publics;
          return Err(Halt(Disagreement(members[publics[0].0].name, members[publics[1 + k].0].name)));
      }
    }

    method RotateLiars<R(==, !new)>(publics: seq<(nat, R)>, truth: R, now: u64)
      requires forall i :: 0 <= i < |publics| ==> publics[i].0 < |members|
      modifies this
      ensures members == RotateAll(old(members), Liars(publics, truth), Until(now, backoff))
    {
      for i := 0 to |publics|
        invariant members == RotateAll(old(members), Liars(publics[..i], truth), Until(now, backoff))
      {
        LiarsStep(publics, truth, i);
        hide Liars;
        if publics[i].1 != truth {
          RotateOut(publics[i].0, now);
        }
      }
      assert publics[..|publics|] == publics;
    }

    method FinalizedTip(answers: seq<Answer<Option<u64>>>, now: u64) returns (r: Result<u64, ReadError>)
      requires FromMembers(members, answers)
      modifies this
      ensures (members, r) == LowestTip(old(members), backoff, answers, now)
    {
      ghost var before := members;
      var settled: Settled<Option<u64>> := Settle<Option<u64>>(answers, now);
      var authoritative: Option<Option<u64>>, publics: seq<(nat, Option<u64>)> := settled.authoritative, settled.publics;
      QuorumKept(before, members);
      hide PublicCount;
      hide MinTip;
      if authoritative.Some? {
        if authoritative.value.None? {
          return Err(NoFinalizedBlock);
        }
        return Ok(authoritative.value.value);
      }
      if publics == [] || |publics| < Quorum(members) {
        return Err(Halt(NoQuorum(|publics|, Quorum(members), |members|)));
      }
      r := LowestOf(publics);
    }

    static method LowestOf(tips: seq<(nat, Option<u64>)>) returns (r: Result<u64, ReadError>)
      ensures r == MinTip(tips, U64_MAX)
    {
      var lowest: u64 := U64_MAX;
      for i := 0 to |tips|
        invariant MinTip(tips, U64_MAX) == MinTip(tips[i..], lowest)
      {
        assert tips[i..][1..] == tips[i + 1..];
        if tips[i].1.None? {
          return Err(NoFinalizedBlock);
        }
        lowest := if tips[i].1.value < lowest then tips[i].1.value else lowest;
      }
      return Ok(lowest);
    }
  }

  lemma LiarsStep<R>(publics: seq<(nat, R)>, truth: R, i: nat)
    requires i < |publics|
    ensures Liars(publics[..i + 1], truth) == Liars(publics[..i], truth) + if publics[i].1 != truth then {publics[i].0} else {}
  {
    var a, b := publics[..i + 1], publics[..i];
    forall m: nat ensures m in Liars(a, truth) <==> m in Liars(b, truth) || (publics[i].1 != truth && m == publics[i].0) {
      if m in Liars(a, truth) {
        var k :| 0 <= k < |a| && a[k].1 != truth && a[k].0 == m;
        assert k < i ==> b[k] == a[k];
      }
      if m in Liars(b, truth) {
        var k :| 0 <= k < |b| && b[k].1 != truth && b[k].0 == m;
        assert a[k] == b[k];
      }
      assert a[i] == publics[i];
    }
  }

  lemma FailedStep<R>(answers: seq<Answer<R>>, i: nat)
    requires i < |answers|
    ensures Failed(answers[..i + 1]) == Failed(answers[..i]) + if answers[i].result.Err? then {answers[i].member} else {}
  {
    var a, b := answers[..i + 1], answers[..i];
    forall m: nat ensures m in Failed(a) <==> m in Failed(b) || (answers[i].result.Err? && m == answers[i].member) {
      if m in Failed(a) {
        var k :| 0 <= k < |a| && a[k].result.Err? && a[k].member == m;
        assert k < i ==> b[k] == a[k];
      }
      if m in Failed(b) {
        var k :| 0 <= k < |b| && b[k].result.Err? && b[k].member == m;
        assert a[k] == b[k];
      }
      assert a[i] == answers[i];
    }
  }

  lemma {:induction false} QuorumKept(a: seq<Member>, b: seq<Member>)
    requires |a| == |b| && forall m :: 0 <= m < |a| ==> a[m].authoritative == b[m].authoritative
    ensures PublicCount(a) == PublicCount(b) && Quorum(a) == Quorum(b)
  {
    if a != [] {
      QuorumKept(a[..|a| - 1], b[..|b| - 1]);
    }
  }

  /** The public members. */
  ghost function PublicSet(members: seq<Member>): set<nat> {
    set m | 0 <= m < |members| && !members[m].authoritative
  }

  /** A read needs two public answers, or all of them when there are fewer. */
  lemma {:induction false} QuorumIsTwoOrAll(members: seq<Member>)
    ensures PublicCount(members) == |PublicSet(members)|
    ensures Quorum(members) == if |PublicSet(members)| < 2 then |PublicSet(members)| else 2
  {
    if members != [] {
      var n := |members| - 1;
      hide PublicSet;
      QuorumIsTwoOrAll(members[..n]);
      PublicSetStep(members, n);
    } else {
      assert PublicSet(members) == {};
    }
  }

  lemma PublicSetStep(members: seq<Member>, n: nat)
    requires n + 1 == |members|
    ensures |PublicSet(members)| == |PublicSet(members[..n])| + if members[n].authoritative then 0 else 1
  {
    var fewer := PublicSet(members[..n]);
    assert n !in fewer;
    assert PublicSet(members) == if members[n].authoritative then fewer else fewer + {n};
  }

  // ----- what a read accepts

  /** A read accepts `v` exactly when the light client answered it, or no light
      client answered and the public answers are `v` and only `v`, at least
      one, and two of them or all the public members. */
  lemma AcceptsIff<R(!new)>(members: seq<Member>, backoff: u64, answers: seq<Answer<R>>, now: u64, v: R)
    requires FromMembers(members, answers)
    ensures Agree(members, backoff, answers, now).1 == Ok(v) <==>
              match Authority(members, answers)
              case Some(truth) => v == truth
              case None =>
                var publics := Publics(members, answers);
                && 1 <= |publics| && (2 <= |publics| || |PublicSet(members)| <= |publics|)
                && forall i :: 0 <= i < |publics| ==> publics[i].1 == v
  {
    hide RotateAll;
    hide Quorum;
    hide PublicSet;
    QuorumIsTwoOrAll(members);
    hide Failed;
    hide Liars;
    var publics := Publics(members, answers);
    if Authority(members, answers).None? && publics != [] {
      assert publics == [publics[0]] + publics[1..];
      assert forall i :: 0 <= i < |publics[1..]| ==> publics[1..][i] == publics[i + 1];
    }
  }

  /** One honest public answer forces the truth when no light client answers. */
  lemma OneHonestPublicForcesTruth<R(!new)>(members: seq<Member>, backoff: u64, answers: seq<Answer<R>>, now: u64,
                                            honest: nat, truth: R, v: R)
    requires FromMembers(members, answers) && Authority(members, answers).None?
    requires honest < |members| && !members[honest].authoritative && Answer(honest, Ok(truth)) in answers
    requires Agree(members, backoff, answers, now).1 == Ok(v)
    ensures v == truth
  {
    AcceptsIff(members, backoff, answers, now, v);
    assert (honest, truth) in Publics(members, answers);
  }

  ghost predicate OncePerMember<R>(answers: seq<Answer<R>>) {
    forall i, j :: 0 <= i < j < |answers| ==> answers[i].member < answers[j].member
  }

  /** The answers of a read: one of each member that is live when it is asked,
      in order. */
  function ReadAnswers<R>(asked: seq<Member>, at: u64, results: seq<Result<R, SourceError>>): (answers: seq<Answer<R>>)
    requires |Live(asked, at)| == |results|
    ensures |answers| == |results| && FromMembers(asked, answers) && OncePerMember(answers)
    ensures forall i :: 0 <= i < |answers| ==> answers[i].member in Live(asked, at)
  {
    var live := Live(asked, at);
    seq(|live|, i requires 0 <= i < |live| => Answer(live[i], results[i]))
  }

  /** The public answers a read counts come from distinct sources. */
  lemma {:induction false} PublicsAreDistinct<R(!new)>(members: seq<Member>, answers: seq<Answer<R>>)
    requires FromMembers(members, answers) && OncePerMember(answers)
    ensures Increasing(Publics(members, answers))
    decreases |answers|
  {
    hide Increasing;
    if answers == [] {
      IncreasingOne<R>([]);
    } else {
      var n := |answers| - 1;
      PublicsAreDistinct(members, answers[..n]);
      var p := Publics(members, answers[..n]);
      forall x | x in p ensures x.0 < answers[n].member {
        assert Answer(x.0, Ok(x.1)) in answers[..n];
      }
      IncreasingAppend(p, answers);
    }
  }

  ghost predicate Increasing<R>(p: seq<(nat, R)>) {
    forall i, j :: 0 <= i < j < |p| ==> p[i].0 < p[j].0
  }

  lemma IncreasingOne<R>(p: seq<(nat, R)>)
    requires |p| <= 1
    ensures Increasing(p)
  {
  }

  lemma IncreasingAppend<R>(p: seq<(nat, R)>, answers: seq<Answer<R>>)
    requires answers != [] && Increasing(p) && forall x :: x in p ==> x.0 < answers[|answers| - 1].member
    ensures var a := answers[|answers| - 1];
            a.result.Ok? ==> Increasing(p + [(a.member, a.result.value)])
    ensures Increasing(p + [])
  {
    assert p + [] == p;
    forall i | 0 <= i < |p| ensures p[i].0 < answers[|answers| - 1].member {
      assert p[i] in p;
    }
  }

  lemma {:induction false} IncreasingSize<R>(p: seq<(nat, R)>)
    requires Increasing(p)
    ensures |set i | 0 <= i < |p| :: p[i].0| == |p|
  {
    if p != [] {
      var n := |p| - 1;
      IncreasingSize(p[..n]);
      var fewer, all := set i | 0 <= i < n :: p[..n][i].0, set i | 0 <= i < |p| :: p[i].0;
      assert forall i :: 0 <= i < n ==> p[..n][i] == p[i];
      assert all == fewer + {p[n].0};
    }
  }

  /** The public members that answered `v`. */
  ghost function Voters<R(!new)>(members: seq<Member>, answers: seq<Answer<R>>, v: R): set<nat> {
    set m | 0 <= m < |members| && !members[m].authoritative && Answer(m, Ok(v)) in answers
  }

  ghost predicate SameMembers(a: seq<Member>, b: seq<Member>) {
    |a| == |b| && forall m :: 0 <= m < |a| ==> a[m].authoritative == b[m].authoritative
  }

  /** The quorum of a read is real. A value accepted without the light client
      was answered by two distinct public members, or by all there are, each
      of them live when the read asked, and every public member that answered
      gave that value. The set may have rotated between asking and settling. */
  lemma AcceptedByAQuorum<R(!new)>(asked: seq<Member>, at: u64, results: seq<Result<R, SourceError>>,
                                   members: seq<Member>, backoff: u64, now: u64, v: R)
    requires |Live(asked, at)| == |results| && SameMembers(asked, members)
    requires Authority(members, ReadAnswers(asked, at, results)).None?
    requires Agree(members, backoff, ReadAnswers(asked, at, results), now).1 == Ok(v)
    ensures
      var answers := ReadAnswers(asked, at, results);
      var voters := Voters(members, answers, v);
      && 1 <= |voters| && (2 <= |voters| || |PublicSet(members)| <= |voters|)
      && (forall m :: m in voters ==> m in Live(asked, at))
      && (forall a :: a in answers && a.result.Ok? && !members[a.member].authoritative ==> a.result == Ok(v))
  {
    hide Agree;
    hide Increasing;
    hide Quorum;
    hide PublicSet;
    hide ReadAnswers;
    hide Live;
    var answers := ReadAnswers(asked, at, results);
    AcceptsIff(members, backoff, answers, now, v);
    VotersAreThePublics(members, answers, v);
    forall m | m in Voters(members, answers, v) ensures m in Live(asked, at) {
      var i :| 0 <= i < |answers| && answers[i] == Answer(m, Ok(v));
    }
    forall a | a in answers && a.result.Ok? && !members[a.member].authoritative ensures a.result == Ok(v) {
      var i :| 0 <= i < |answers| && answers[i] == a;
      assert (a.member, a.result.value) in Publics(members, answers);
    }
  }

  lemma VotersAreThePublics<R(!new)>(members: seq<Member>, answers: seq<Answer<R>>, v: R)
    requires FromMembers(members, answers) && OncePerMember(answers)
    requires forall i :: 0 <= i < |Publics(members, answers)| ==> Publics(members, answers)[i].1 == v
    ensures |Voters(members, answers, v)| == |Publics(members, answers)|
  {
    hide Increasing;
    var p := Publics(members, answers);
    PublicsAreDistinct(members, answers);
    IncreasingSize(p);
    var voters, members0 := Voters(members, answers, v), set i | 0 <= i < |p| :: p[i].0;
    forall m | m in voters ensures m in members0 {
      assert (m, v) in p;
    }
    forall m | m in members0 ensures m in voters {
      var i :| 0 <= i < |p| && p[i].0 == m;
      assert p[i] in p;
    }
    assert voters == members0;
  }

  // ----- the finalized tip

  lemma {:induction false} MinTipIsMinimum(tips: seq<(nat, Option<u64>)>, lowest: u64)
    ensures MinTip(tips, lowest).Ok? <==> forall i :: 0 <= i < |tips| ==> tips[i].1.Some?
    ensures MinTip(tips, lowest).Ok? ==>
              var m := MinTip(tips, lowest).value;
              && m <= lowest && (forall i :: 0 <= i < |tips| ==> m <= tips[i].1.value)
              && (m == lowest || exists i :: 0 <= i < |tips| && tips[i].1 == Some(m))
    decreases |tips|
  {
    if tips != [] {
      assert forall i :: 0 < i < |tips| ==> tips[i] == tips[1..][i - 1];
      if tips[0].1.Some? {
        var t := tips[0].1.value;
        MinTipIsMinimum(tips[1..], if t < lowest then t else lowest);
      }
    }
  }

  /** `tip` is the least of the reported tips. */
  ghost predicate IsLowest(publics: seq<(nat, Option<u64>)>, tip: u64) {
    && (forall i :: 0 <= i < |publics| ==> publics[i].1.Some? && tip <= publics[i].1.value)
    && exists i :: 0 <= i < |publics| && publics[i].1 == Some(tip)
  }

  /** A tip is accepted exactly when the light client reports it, or no light
      client answers, the quorum does, every public source has a finalized
      block, and `tip` is the lowest of theirs. */
  lemma TipAcceptsIff(members: seq<Member>, backoff: u64, answers: seq<Answer<Option<u64>>>, now: u64, tip: u64)
    requires FromMembers(members, answers)
    ensures LowestTip(members, backoff, answers, now).1 == Ok(tip) <==>
              var auth, publics := Authority(members, answers), Publics(members, answers);
              if auth.Some? then auth.value == Some(tip)
              else (2 <= |publics| || |PublicSet(members)| <= |publics|) && IsLowest(publics, tip)
  {
    hide Quorum;
    hide PublicSet;
    QuorumIsTwoOrAll(members);
    hide MinTip;
    hide IsLowest;
    hide RotateAll;
    hide Failed;
    LowestIff(Publics(members, answers), tip);
  }

  lemma LowestIff(publics: seq<(nat, Option<u64>)>, tip: u64)
    ensures IsLowest(publics, tip) <==> publics != [] && MinTip(publics, U64_MAX) == Ok(tip)
  {
    hide MinTip;
    MinTipIsMinimum(publics, U64_MAX);
    if publics != [] && MinTip(publics, U64_MAX).Ok? {
      var m := MinTip(publics, U64_MAX).value;
      assert m == U64_MAX ==> publics[0].1 == Some(m);
    }
  }

  // ----- how a read fails

  /** Too few public answers, and no light client's. */
  ghost predicate TooFew(members: seq<Member>, answered: nat) {
    answered == 0 || (answered < 2 && answered < |PublicSet(members)|)
  }

  /** An agreement read without the light client halts on too few answers, with
      the numbers, or on the first public answer that differs from the first
      one, with both names. */
  lemma AgreeHalts<R(!new)>(members: seq<Member>, backoff: u64, answers: seq<Answer<R>>, now: u64)
    requires FromMembers(members, answers) && Authority(members, answers).None?
    ensures
      var publics, r := Publics(members, answers), Agree(members, backoff, answers, now).1;
      && (TooFew(members, |publics|) ==>
            r == Err(Halt(NoQuorum(|publics|, if |PublicSet(members)| < 2 then |PublicSet(members)| else 2, |members|))))
      && (!TooFew(members, |publics|) && r.Err? ==>
            exists k :: 1 <= k < |publics| && publics[k].1 != publics[0].1
              && (forall i :: 0 <= i < k ==> publics[i].1 == publics[0].1)
              && publics[0].0 < |members| && publics[k].0 < |members|
              && r == Err(Halt(Disagreement(members[publics[0].0].name, members[publics[k].0].name))))
  {
    hide RotateAll;
    hide Failed;
    hide Quorum;
    hide PublicSet;
    QuorumIsTwoOrAll(members);
    var publics := Publics(members, answers);
    if !TooFew(members, |publics|) {
      var rest := publics[1..];
      assert publics[0] in publics;
      FirstOtherIsFirst(rest, publics[0].1);
      match FirstOther(rest, publics[0].1)
      case None =>
      case Some(j) =>
        assert publics[1 + j] in publics && publics[1 + j] == rest[j];
        forall i | 0 <= i < 1 + j ensures publics[i].1 == publics[0].1 {
          assert i > 0 ==> publics[i] == rest[i - 1];
        }
    }
  }

  lemma {:induction false} FirstOtherIsFirst<R>(publics: seq<(nat, R)>, truth: R)
    ensures FirstOther(publics, truth).Some? ==>
              forall i :: 0 <= i < FirstOther(publics, truth).value ==> publics[i].1 == truth
  {
    if publics != [] {
      FirstOtherIsFirst(publics[1..], truth);
    }
  }

  /** A tip read fails on too few answers, or when the light client, or without
      it some public member, has no finalized block. */
  lemma TipHalts(members: seq<Member>, backoff: u64, answers: seq<Answer<Option<u64>>>, now: u64)
    requires FromMembers(members, answers) && LowestTip(members, backoff, answers, now).1.Err?
    ensures
      var auth, publics := Authority(members, answers), Publics(members, answers);
      LowestTip(members, backoff, answers, now).1.error ==
        if auth.None? && TooFew(members, |publics|)
        then Halt(NoQuorum(|publics|, if |PublicSet(members)| < 2 then |PublicSet(members)| else 2, |members|))
        else NoFinalizedBlock
    ensures
      var auth, publics := Authority(members, answers), Publics(members, answers);
      !(auth.None? && TooFew(members, |publics|)) ==>
        if auth.Some? then auth.value.None? else exists i :: 0 <= i < |publics| && publics[i].1.None?
  {
    hide RotateAll;
    hide Failed;
    hide Quorum;
    hide PublicSet;
    hide MinTip;
    QuorumIsTwoOrAll(members);
    var publics := Publics(members, answers);
    MinTipIsMinimum(publics, U64_MAX);
    MinTipError(publics, U64_MAX);
  }

  lemma {:induction false} MinTipError(tips: seq<(nat, Option<u64>)>, lowest: u64)
    ensures MinTip(tips, lowest).Err? ==> MinTip(tips, lowest).error == NoFinalizedBlock
    decreases |tips|
  {
    if tips != [] && tips[0].1.Some? {
      MinTipError(tips[1..], if tips[0].1.value < lowest then tips[0].1.value else lowest);
    }
  }

  // ----- rotation

  /** `m` failed the read. */
  ghost predicate FailedIt<R(!new)>(answers: seq<Answer<R>>, m: nat) {
    exists i :: 0 <= i < |answers| && answers[i].member == m && answers[i].result.Err?
  }

  /** `m` is public and answered something else than `truth`. */
  ghost predicate Contradicted<R(!new)>(members: seq<Member>, answers: seq<Answer<R>>, m: nat, truth: R)
    requires m < |members|
  {
    !members[m].authoritative
    && exists i :: 0 <= i < |answers| && answers[i].member == m && answers[i].result.Ok? && answers[i].result.value != truth
  }

  lemma LiarsContradicted<R(!new)>(members: seq<Member>, answers: seq<Answer<R>>, m: nat, truth: R)
    requires FromMembers(members, answers) && m < |members|
    ensures m in Liars(Publics(members, answers), truth) <==> Contradicted(members, answers, m, truth)
  {
    var p := Publics(members, answers);
    if m in Liars(p, truth) {
      var i :| 0 <= i < |p| && p[i].1 != truth && p[i].0 == m;
      assert p[i] in p;
      var k :| 0 <= k < |answers| && answers[k] == Answer(m, Ok(p[i].1));
    }
    if Contradicted(members, answers, m, truth) {
      var k :| 0 <= k < |answers| && answers[k].member == m && answers[k].result.Ok? && answers[k].result.value != truth;
      assert answers[k] == Answer(m, Ok(answers[k].result.value));
      assert (m, answers[k].result.value) in p;
      var i :| 0 <= i < |p| && p[i] == (m, answers[k].result.value);
    }
  }

  /** A read rotates out exactly the members that failed it, and those that
      contradicted an answering light client. */
  lemma RotatesExactly<R(!new)>(members: seq<Member>, backoff: u64, answers: seq<Answer<R>>, now: u64, m: nat)
    requires FromMembers(members, answers) && m < |members|
    ensures
      var (after, _) := Agree(members, backoff, answers, now);
      var auth := Authority(members, answers);
      |after| == |members| &&
      after[m] ==
        if FailedIt(answers, m) || (auth.Some? && Contradicted(members, answers, m, auth.value))
        then members[m].(outUntil := Until(now, backoff)) else members[m]
  {
    hide Liars;
    hide Contradicted;
    if Authority(members, answers).Some? {
      LiarsContradicted(members, answers, m, Authority(members, answers).value);
    }
    FailedIff(answers, m);
  }

  lemma FailedIff<R(!new)>(answers: seq<Answer<R>>, m: nat)
    ensures m in Failed(answers) <==> FailedIt(answers, m)
  {
  }

  /** Every answer of `m` is the truth. */
  ghost predicate Truthful<R>(members: seq<Member>, answers: seq<Answer<R>>, m: nat, truth: R)
    requires FromMembers(members, answers)
  {
    forall i :: 0 <= i < |answers| && answers[i].member == m ==> answers[i].result == Ok(truth)
  }

  /** The light client answers the truth, or fails. */
  ghost predicate HonestLightClient<R>(members: seq<Member>, answers: seq<Answer<R>>, truth: R)
    requires FromMembers(members, answers)
  {
    forall i :: 0 <= i < |answers| && members[answers[i].member].authoritative && answers[i].result.Ok? ==>
      answers[i].result.value == truth
  }

  lemma TruthfulStaysIn<R(!new)>(members: seq<Member>, backoff: u64, answers: seq<Answer<R>>, now: u64, m: nat, truth: R)
    requires FromMembers(members, answers) && m < |members|
    requires Truthful(members, answers, m, truth) && HonestLightClient(members, answers, truth)
    ensures Agree(members, backoff, answers, now).0[m] == members[m]
  {
    RotatesExactly(members, backoff, answers, now, m);
    var auth := Authority(members, answers);
    assert auth.Some? ==> auth.value == truth;
  }

  /** A run of reads on one set: agreement reads with their truth, and tip
      reads, where a truthful member is one that answers at all. */
  datatype Read<R> =
    | AgreeRead(answers: seq<Answer<R>>, now: u64, truth: R)
    | TipRead(tips: seq<Answer<Option<u64>>>, now: u64)

  ghost predicate Asks<R>(members: seq<Member>, read: Read<R>) {
    match read
    case AgreeRead(answers, _, _) => FromMembers(members, answers)
    case TipRead(tips, _) => FromMembers(members, tips)
  }

  function After<R(==, !new)>(members: seq<Member>, backoff: u64, read: Read<R>): (after: seq<Member>)
    requires Asks(members, read)
    ensures |after| == |members|
    ensures forall m :: 0 <= m < |members| ==> after[m].authoritative == members[m].authoritative
  {
    match read
    case AgreeRead(answers, now, _) => Agree(members, backoff, answers, now).0
    case TipRead(tips, now) => LowestTip(members, backoff, tips, now).0
  }

  /** The read rotates `m` out. */
  ghost predicate RotatedOutBy<R(!new)>(members: seq<Member>, read: Read<R>, m: nat)
    requires Asks(members, read) && m < |members|
  {
    match read
    case AgreeRead(answers, _, _) =>
      var auth := Authority(members, answers);
      FailedIt(answers, m) || (auth.Some? && Contradicted(members, answers, m, auth.value))
    case TipRead(tips, _) => FailedIt(tips, m)
  }

  /** Whom the next read asks: a member this read rotated out again once the
      backoff has passed, or at the end of time, and every other member exactly
      as before. */
  lemma LiveAfterRead<R(!new)>(members: seq<Member>, backoff: u64, read: Read<R>, m: nat, at: u64)
    requires Asks(members, read) && m < |members|
    ensures m in Live(After(members, backoff, read), at) <==>
              if RotatedOutBy(members, read, m)
              then read.now + backoff <= at || at == 0xFFFF_FFFF_FFFF_FFFF
              else m in Live(members, at)
  {
    hide Live;
    hide Contradicted;
    hide FailedIt;
    match read
    case AgreeRead(answers, now, _) => RotatesExactly(members, backoff, answers, now, m);
    case TipRead(tips, _) => FailedIff(tips, m);
  }

  ghost predicate KeepsFaith<R>(members: seq<Member>, read: Read<R>, m: nat)
    requires Asks(members, read)
  {
    match read
    case AgreeRead(answers, _, truth) =>
      Truthful(members, answers, m, truth) && HonestLightClient(members, answers, truth)
    case TipRead(tips, _) => forall i :: 0 <= i < |tips| && tips[i].member == m ==> tips[i].result.Ok?
  }

  function RunReads<R(==, !new)>(members: seq<Member>, backoff: u64, history: seq<Read<R>>): (end: seq<Member>)
    requires forall k :: 0 <= k < |history| ==> Asks(members, history[k])
    ensures |end| == |members|
    decreases |history|
  {
    if history == [] then members else
      var next := After(members, backoff, history[0]);
      assert forall k :: 0 <= k < |history| ==> Asks(members, history[k]) ==> Asks(next, history[k]);
      RunReads(next, backoff, history[1..])
  }

  lemma FaithIsOfTheFlags<R(!new)>(a: seq<Member>, b: seq<Member>, read: Read<R>, m: nat)
    requires |a| == |b| && forall k :: 0 <= k < |a| ==> a[k].authoritative == b[k].authoritative
    requires Asks(a, read)
    ensures Asks(b, read) && (KeepsFaith(a, read, m) ==> KeepsFaith(b, read, m))
  {
  }

  /** A source that always answers, and answers truthfully, is never rotated
      out while the light client is honest or silent: after any run of reads
      its state is untouched. */
  lemma {:induction false} TruthfulIsNeverRotatedOut<R(!new)>(members: seq<Member>, backoff: u64, history: seq<Read<R>>, m: nat)
    requires m < |members| && forall k :: 0 <= k < |history| ==> Asks(members, history[k]) && KeepsFaith(members, history[k], m)
    ensures RunReads(members, backoff, history)[m] == members[m]
    decreases |history|
  {
    if history != [] {
      var next := After(members, backoff, history[0]);
      assert next[m] == members[m] by {
        assert KeepsFaith(members, history[0], m);
        match history[0] {
          case AgreeRead(answers, now, truth) => TruthfulStaysIn(members, backoff, answers, now, m, truth);
          case TipRead(tips, now) =>
        }
      }
      forall k | 0 <= k < |history[1..]| ensures Asks(next, history[1..][k]) && KeepsFaith(next, history[1..][k], m) {
        FaithIsOfTheFlags(members, next, history[k + 1], m);
      }
      TruthfulIsNeverRotatedOut(next, backoff, history[1..], m);
    }
  }
}
