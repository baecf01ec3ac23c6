/**
 * The environment check at the top of the generator: eight variables must
 * be set; their values (empty ones included) give the cluster domain, the
 * SSH public key, the six node names in a fixed order and the
 * control-plane subset, which is the bootstrap node and the three masters.
 */
module Env {
  import opened Wrappers

  const ClusterDomainVar: string := "CLUSTER_DOMAIN"
  const BootstrapVar: string := "BOOTSTRAP"
  const Master0Var: string := "MASTER0"
  const Master1Var: string := "MASTER1"
  const Master2Var: string := "MASTER2"
  const Worker0Var: string := "WORKER0"
  const Worker1Var: string := "WORKER1"
  const SshPubKeyVar: string := "SSH_PUB_KEY"

  /** The required variables, in the order the message lists missing ones. */
  const RequiredEnv: seq<string> :=
    [ClusterDomainVar, BootstrapVar, Master0Var, Master1Var, Master2Var, Worker0Var, Worker1Var, SshPubKeyVar]

  const MissingPrefix: string := "Missing env vars: "

  /** What every node document is built from; shared, read-only. */
  datatype ClusterContext = ClusterContext(
    domain: string,
    sshPubKey: string,
    hosts: seq<string>,
    controlPlane: seq<string>)

  /** The process exits with this message when variables are missing. */
  datatype ConfigurationError = ConfigurationError(message: string)

  /** The keys of `keys` that `env` does not set, in the order of `keys`. */
  function Missing(keys: seq<string>, env: map<string, string>): (r: seq<string>)
    ensures forall k :: k in r <==> k in keys && k !in env
    ensures |r| <= |keys|
    decreases |keys|
  {
    if |keys| == 0 then []
    else if keys[0] in env then Missing(keys[1..], env)
    else [keys[0]] + Missing(keys[1..], env)
  }

  /** Collecting the absent keys keeps their order: it distributes over concatenation. */
  lemma {:induction false} MissingAppend(a: seq<string>, b: seq<string>, env: map<string, string>)
    ensures Missing(a + b, env) == Missing(a, env) + Missing(b, env)
    decreases |a|
  {
    if |a| == 0 {
      assert a + b == b;
    } else {
      assert (a + b)[0] == a[0];
      assert (a + b)[1..] == a[1..] + b;
      MissingAppend(a[1..], b, env);
    }
  }

  /** When every key is set, nothing is reported. */
  lemma {:induction false} MissingNone(keys: seq<string>, env: map<string, string>)
    requires forall i | 0 <= i < |keys| :: keys[i] in env
    ensures Missing(keys, env) == []
    decreases |keys|
  {
    if |keys| > 0 {
      MissingNone(keys[1..], env);
    }
  }

  /** When none of the keys is set, every key is reported, in order. */
  lemma {:induction false} MissingAll(keys: seq<string>, env: map<string, string>)
    requires forall i | 0 <= i < |keys| :: keys[i] !in env
    ensures Missing(keys, env) == keys
    decreases |keys|
  {
    if |keys| > 0 {
      MissingAll(keys[1..], env);
    }
  }

  /** `sep.join(parts)`. */
  function Join(parts: seq<string>, sep: string): (r: string)
    ensures |parts| == 1 ==> r == parts[0]
    decreases |parts|
  {
    if |parts| == 0 then ""
    else if |parts| == 1 then parts[0]
    else parts[0] + sep + Join(parts[1..], sep)
  }

  /** One more part is joined after the others with one more separator. */
  lemma {:induction false} JoinSnoc(parts: seq<string>, sep: string, last: string)
    requires |parts| > 0
    ensures Join(parts + [last], sep) == Join(parts, sep) + sep + last
    decreases |parts|
  {
    var all := parts + [last];
    if |parts| > 1 {
      assert all[1..] == parts[1..] + [last];
      JoinSnoc(parts[1..], sep, last);
    } else {
      assert all[1..] == [last];
    }
  }

  /**
   * Fails exactly when a required variable is absent, naming every absent
   * one; otherwise builds the host list and the control-plane list.
   */
  function Validate(env: map<string, string>): (r: Result<ClusterContext, ConfigurationError>)
    ensures r.Err? <==> exists k :: k in RequiredEnv && k !in env
    ensures r.Err? ==> r.error.message == MissingPrefix + Join(Missing(RequiredEnv, env), ", ")
    ensures r.Ok? ==> forall i | 0 <= i < |RequiredEnv| :: RequiredEnv[i] in env
  {
    var missing := Missing(RequiredEnv, env);
    if |missing| > 0 then
      assert missing[0] in missing;
      Err(ConfigurationError(MissingPrefix + Join(missing, ", ")))
    else
      assert forall i | 0 <= i < |RequiredEnv| :: RequiredEnv[i] in env by {
        forall i | 0 <= i < |RequiredEnv| ensures RequiredEnv[i] in env {
          assert RequiredEnv[i] !in missing;
        }
      }
      var hosts := [env[BootstrapVar], env[Master0Var], env[Master1Var], env[Master2Var], env[Worker0Var], env[Worker1Var]];
      var controlPlane := [env[BootstrapVar], env[Master0Var], env[Master1Var], env[Master2Var]];
      Ok(ClusterContext(env[ClusterDomainVar], env[SshPubKeyVar], hosts, controlPlane))
  }

  /**
   * On success the hosts are bootstrap, master0-2, worker0-1, each the
   * variable's value as given, and the control plane is their first four.
   */
  lemma ValidatedContext(env: map<string, string>)
    requires Validate(env).Ok?
    ensures var ctx := Validate(env).value;
      && ClusterDomainVar in env && ctx.domain == env[ClusterDomainVar]
      && SshPubKeyVar in env && ctx.sshPubKey == env[SshPubKeyVar]
      && |ctx.hosts| == 6
      && (forall i | 0 <= i < 6 :: RequiredEnv[i + 1] in env && ctx.hosts[i] == env[RequiredEnv[i + 1]])
      && ctx.controlPlane == ctx.hosts[..4]
      && (forall n :: n in ctx.controlPlane ==> n in ctx.hosts)
  {
  }

  /** Omitting only the SSH key names exactly that variable. */
  lemma OnlySshKeyMissing(env: map<string, string>)
    requires forall i | 0 <= i < 7 :: RequiredEnv[i] in env
    requires SshPubKeyVar !in env
    ensures Validate(env) == Err(ConfigurationError(MissingPrefix + SshPubKeyVar))
  {
    var head, last := RequiredEnv[..7], RequiredEnv[7..];
    assert RequiredEnv == head + last;
    MissingAppend(head, last, env);
    MissingNone(head, env);
    MissingAll(last, env);
    assert Missing(RequiredEnv, env) == [SshPubKeyVar];
  }

  /** With an empty environment the message lists all eight variables in declared order. */
  lemma EmptyEnvironment()
    ensures Validate(map[]) == Err(ConfigurationError(MissingPrefix + Join(RequiredEnv, ", ")))
  {
    MissingAll(RequiredEnv, map[]);
  }
}
