/**
 * The configured environments and the lookup of a request's environment.
 * The list is read-only after startup; the lookup is a linear scan that stops
 * at the first entry whose name equals the requested one, and "" stands for
 * "no key found".
 */
module Registry {

  /** One configured environment: its name and its base64-encoded public key. */
  datatype EnvironmentConfig = EnvironmentConfig(name: string, publicKey: string)

  /** Entry `i` is the first one named `name`. */
  ghost predicate IsFirstMatch(envs: seq<EnvironmentConfig>, name: string, i: int) {
    && 0 <= i < |envs|
    && envs[i].name == name
    && forall j :: 0 <= j < i ==> envs[j].name != name
  }

  /** Some entry is named `name`. */
  ghost predicate HasEntry(envs: seq<EnvironmentConfig>, name: string) {
    exists i :: 0 <= i < |envs| && envs[i].name == name
  }

  /** The key the scan settles on: that of the first entry named `name`, or "". */
  function Resolve(envs: seq<EnvironmentConfig>, name: string): (publicKey: string)
    ensures publicKey == "" || exists i :: 0 <= i < |envs| && envs[i].name == name && envs[i].publicKey == publicKey
  {
    if |envs| == 0 then ""
    else if envs[0].name == name then envs[0].publicKey
    else
      var rest := Resolve(envs[1..], name);
      assert rest != "" ==> exists i :: 0 <= i < |envs| && envs[i].name == name && envs[i].publicKey == rest by {
        if rest != "" {
          var i :| 0 <= i < |envs[1..]| && envs[1..][i].name == name && envs[1..][i].publicKey == rest;
          assert envs[i + 1] == envs[1..][i];
        }
      }
      rest
  }

  /** The `for ... range` loop with `break`: the key of the first entry named `name`, or "". */
  method FindPublicKey(envs: seq<EnvironmentConfig>, name: string) returns (publicKey: string)
    ensures publicKey == Resolve(envs, name)
    ensures (exists i :: IsFirstMatch(envs, name, i) && publicKey == envs[i].publicKey)
         || (!HasEntry(envs, name) && publicKey == "")
  {
    publicKey := "";
    var i := 0;
    while i < |envs|
      invariant 0 <= i <= |envs|
      invariant forall j :: 0 <= j < i ==> envs[j].name != name
      invariant Resolve(envs[i..], name) == Resolve(envs, name)
    {
      if envs[i].name == name {
        publicKey := envs[i].publicKey;
        assert IsFirstMatch(envs, name, i);
        break;
      }
      assert envs[i..][1..] == envs[i + 1..];
      i := i + 1;
    }
  }

  /** The lookup yields the key of the first entry with the requested name. */
  lemma {:induction false} ResolveFirstMatch(envs: seq<EnvironmentConfig>, name: string, i: int)
    requires IsFirstMatch(envs, name, i)
    ensures Resolve(envs, name) == envs[i].publicKey
  {
    if i > 0 {
      assert envs[0].name != name;
      ResolveFirstMatch(envs[1..], name, i - 1);
    }
  }

  /** With no entry of that name the lookup yields "" (immediate from `Resolve`'s contract). */
  lemma ResolveNoMatch(envs: seq<EnvironmentConfig>, name: string)
    requires !HasEntry(envs, name)
    ensures Resolve(envs, name) == ""
  {
  }

  /** Entries after a matching one never change the lookup (the `break`). */
  lemma {:induction false} ResolveIgnoresLaterEntries(envs: seq<EnvironmentConfig>, later: seq<EnvironmentConfig>, name: string)
    requires HasEntry(envs, name)
    ensures Resolve(envs + later, name) == Resolve(envs, name)
  {
    assert envs != [];
    if envs[0].name != name {
      assert HasEntry(envs[1..], name) by {
        var i :| 0 <= i < |envs| && envs[i].name == name;
        assert envs[1..][i - 1] == envs[i];
      }
      assert (envs + later)[1..] == envs[1..] + later;
      ResolveIgnoresLaterEntries(envs[1..], later, name);
    }
  }
}
