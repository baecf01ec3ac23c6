/**
 * The generator's top level: check the environment, then write one
 * `<node>.ign` document per host, in host order, into the output
 * directory. A host whose document cannot be generated stops the run;
 * documents already written stay written.
 */
module Output {
  import opened Wrappers
  import Env
  import opened Ignition

  const OutSuffix: string := ".ign"

  /** The file name a node's document is written under. */
  function OutName(node: string): (name: string)
    ensures |name| == |node| + |OutSuffix| && name[..|node|] == node && name[|node|..] == OutSuffix
  {
    node + OutSuffix
  }

  /** Different nodes are written to different files. */
  lemma OutNameInjective(a: string, b: string)
    ensures OutName(a) == OutName(b) ==> a == b
  {
    if OutName(a) == OutName(b) {
      assert |a| == |b|;
      assert a == OutName(a)[..|a|];
    }
  }

  /** What generating each host's document gives, in host order. */
  function Results(ctx: Env.ClusterContext, hosts: seq<string>, disk: Disk): (rs: seq<Result<Config, ReadError>>)
    ensures |rs| == |hosts|
    decreases |hosts|
  {
    if |hosts| == 0 then []
    else
      var n := |hosts| - 1;
      Results(ctx, hosts[..n], disk) + [NodeConfig(ctx, hosts[n], disk)]
  }

  /** Result i is host i's document. */
  lemma {:induction false} ResultsAt(ctx: Env.ClusterContext, hosts: seq<string>, disk: Disk, i: nat)
    requires i < |hosts|
    ensures Results(ctx, hosts, disk)[i] == NodeConfig(ctx, hosts[i], disk)
    decreases |hosts|
  {
    var n := |hosts| - 1;
    var front := hosts[..n];
    assert Results(ctx, hosts, disk) == Results(ctx, front, disk) + [NodeConfig(ctx, hosts[n], disk)];
    if i < n {
      ResultsAt(ctx, front, disk, i);
      assert front[i] == hosts[i];
    }
  }

  /** A node's document depends on the node alone: equal names give equal results. */
  predicate Consistent(names: seq<string>, rs: seq<Result<Config, ReadError>>) {
    |names| == |rs| &&
    forall i, j | 0 <= i < |names| && 0 <= j < |names| :: names[i] == names[j] ==> rs[i] == rs[j]
  }

  lemma ResultsConsistent(ctx: Env.ClusterContext, hosts: seq<string>, disk: Disk, k: nat)
    requires k <= |hosts|
    ensures Consistent(hosts[..k], Results(ctx, hosts, disk)[..k])
  {
    var rs := Results(ctx, hosts, disk);
    forall i, j | 0 <= i < k && 0 <= j < k && hosts[i] == hosts[j]
      ensures rs[i] == rs[j]
    {
      ResultsAt(ctx, hosts, disk, i);
      ResultsAt(ctx, hosts, disk, j);
    }
  }

  /** The position of the first failed result, or the number of results when none failed. */
  function FirstFailure(rs: seq<Result<Config, ReadError>>): (k: nat)
    ensures k <= |rs|
    ensures forall i | 0 <= i < k :: rs[i].Ok?
    ensures k < |rs| ==> rs[k].Err?
    decreases |rs|
  {
    if |rs| == 0 then 0
    else if rs[0].Err? then 0
    else 1 + FirstFailure(rs[1..])
  }

  /** The documents of `names`, written in order, each under its node's file name. */
  function Outputs(names: seq<string>, rs: seq<Result<Config, ReadError>>): (m: map<string, Config>)
    requires |names| == |rs| && forall i | 0 <= i < |rs| :: rs[i].Ok?
    decreases |names|
  {
    if |names| == 0 then map[]
    else
      var n := |names| - 1;
      Outputs(names[..n], rs[..n])[OutName(names[n]) := rs[n].value]
  }

  /** Writing one more host updates its file and keeps the others. */
  lemma OutputsStep(names: seq<string>, rs: seq<Result<Config, ReadError>>, i: nat)
    requires i < |names| == |rs| && forall j | 0 <= j <= i :: rs[j].Ok?
    ensures Outputs(names[..i + 1], rs[..i + 1]) == Outputs(names[..i], rs[..i])[OutName(names[i]) := rs[i].value]
  {
    assert names[..i + 1][..i] == names[..i] && rs[..i + 1][..i] == rs[..i];
  }

  /** Before the first failure, host i's result decides whether the run stops there. */
  lemma FirstFailureAt(rs: seq<Result<Config, ReadError>>, i: nat)
    requires i <= FirstFailure(rs) && i < |rs|
    ensures rs[i].Err? <==> FirstFailure(rs) == i
  {
  }

  /** Recording a write after earlier ones is recording it into the union. */
  lemma UnionUpdate(before: map<string, Config>, m: map<string, Config>, key: string, v: Config)
    ensures (before + m)[key := v] == before + m[key := v]
  {
  }

  /**
   * The files written for `names` are exactly their `<node>.ign` names, and
   * each holds its own node's document, even when a name repeats.
   */
  lemma {:induction false} OutputsContents(names: seq<string>, rs: seq<Result<Config, ReadError>>)
    requires Consistent(names, rs) && forall i | 0 <= i < |rs| :: rs[i].Ok?
    ensures forall name :: name in Outputs(names, rs) <==> exists i | 0 <= i < |names| :: name == OutName(names[i])
    ensures forall i | 0 <= i < |names| :: Outputs(names, rs)[OutName(names[i])] == rs[i].value
    decreases |names|
  {
    if |names| > 0 {
      var n := |names| - 1;
      var front, frontRs := names[..n], rs[..n];
      OutputsContents(front, frontRs);
      var m := Outputs(names, rs);
      assert m == Outputs(front, frontRs)[OutName(names[n]) := rs[n].value];
      forall name
        ensures name in m <==> exists i | 0 <= i < |names| :: name == OutName(names[i])
      {
        if i :| 0 <= i < |front| && name == OutName(front[i]) {
          assert name == OutName(names[i]);
        }
        if i :| 0 <= i < |names| && name == OutName(names[i]) {
          if i < n {
            assert name == OutName(front[i]);
          }
        }
      }
      forall i | 0 <= i < |names|
        ensures m[OutName(names[i])] == rs[i].value
      {
        OutNameInjective(names[i], names[n]);
        if names[i] != names[n] {
          assert front[i] == names[i] && frontRs[i] == rs[i];
        }
      }
    }
  }

  /**
   * After a run that stopped at host k (or finished, k being the number of
   * hosts), exactly the files `<node>.ign` of the hosts before k are
   * written, each holding that host's result, which is its document
   * (`ResultsAt`).
   */
  lemma WrittenDocuments(ctx: Env.ClusterContext, hosts: seq<string>, disk: Disk)
    ensures var rs := Results(ctx, hosts, disk);
      var k := FirstFailure(rs);
      (forall name :: name in Outputs(hosts[..k], rs[..k]) <==> exists i | 0 <= i < k :: name == OutName(hosts[i])) &&
      (forall i | 0 <= i < k :: Outputs(hosts[..k], rs[..k])[OutName(hosts[i])] == rs[i].value)
  {
    var rs := Results(ctx, hosts, disk);
    var k := FirstFailure(rs);
    var m := Outputs(hosts[..k], rs[..k]);
    ResultsConsistent(ctx, hosts, disk, k);
    OutputsContents(hosts[..k], rs[..k]);
    forall name | name in m
      ensures exists i | 0 <= i < k :: name == OutName(hosts[i])
    {
      var i :| 0 <= i < k && name == OutName(hosts[..k][i]);
      assert name == OutName(hosts[i]);
    }
    forall i | 0 <= i < k
      ensures OutName(hosts[i]) in m && m[OutName(hosts[i])] == rs[i].value
    {
      assert hosts[..k][i] == hosts[i] && rs[..k][i] == rs[i];
    }
  }

  /** Why a run stops: a missing variable, or a source that cannot be read. */
  datatype RunError = MissingEnv(missing: Env.ConfigurationError) | ReadFailed(failed: ReadError)

  /** The output directory: the documents written so far, by file name. */
  class IgnitionDir {
    var written: map<string, Config>

    constructor()
      ensures written == map[]
    {
      written := map[];
    }

    /** Generates host i's document: `ignition_for_node` on that host. */
    method Generate1(ctx: Env.ClusterContext, hosts: seq<string>, disk: Disk, i: nat) returns (ign: Result<Config, ReadError>)
      requires i < |hosts|
      ensures ign == Results(ctx, hosts, disk)[i]
    {
      ign := IgnitionForNode(ctx, hosts[i], disk);
      ResultsAt(ctx, hosts, disk, i);
    }

    /**
     * The loop over the hosts: documents are generated and written in host
     * order until one fails; that host's read error is the result.
     */
    method WriteAll(ctx: Env.ClusterContext, disk: Disk) returns (r: Result<(), ReadError>)
      modifies this
      ensures var rs := Results(ctx, ctx.hosts, disk);
        var k := FirstFailure(rs);
        written == old(written) + Outputs(ctx.hosts[..k], rs[..k]) &&
        (r.Ok? <==> k == |ctx.hosts|) &&
        (r.Err? ==> k < |ctx.hosts| && r.error == rs[k].error)
    {
      var hosts := ctx.hosts;
      ghost var rs := Results(ctx, hosts, disk);
      ghost var k := FirstFailure(rs);
      var i := 0;
      while i < |hosts|
        invariant 0 <= i <= k
        invariant written == old(written) + Outputs(hosts[..i], rs[..i])
      {
        var ign := Generate1(ctx, hosts, disk, i);
        FirstFailureAt(rs, i);
        if ign.Err? {
          return Err(ign.error);
        }
        OutputsStep(hosts, rs, i);
        UnionUpdate(old(written), Outputs(hosts[..i], rs[..i]), OutName(hosts[i]), ign.value);
        written := written[OutName(hosts[i]) := ign.value];
        i := i + 1;
      }
      assert hosts[..i] == hosts;
      return Ok(());
    }

    /**
     * The whole run: with a variable missing nothing is written and the
     * message names every missing variable; otherwise the hosts' documents
     * are written as `WriteAll` does.
     */
    method Generate(env: map<string, string>, disk: Disk) returns (r: Result<(), RunError>)
      modifies this
      ensures Env.Validate(env).Err? ==>
        written == old(written) && r == Err(MissingEnv(Env.Validate(env).error))
      ensures Env.Validate(env).Ok? ==>
        var ctx := Env.Validate(env).value;
        var rs := Results(ctx, ctx.hosts, disk);
        var k := FirstFailure(rs);
        written == old(written) + Outputs(ctx.hosts[..k], rs[..k]) &&
        (r.Ok? <==> k == |ctx.hosts|) &&
        (r.Err? ==> k < |ctx.hosts| && r == Err(ReadFailed(rs[k].error)))
    {
      var validated := Env.Validate(env);
      if validated.Err? {
        return Err(MissingEnv(validated.error));
      }
      var res := WriteAll(validated.value, disk);
      if res.Err? {
        return Err(ReadFailed(res.error));
      }
      return Ok(());
    }
  }
}
