/** What the world outside does with the calls that may fail. */
module Environments {

  /** `after` is what is left of `before` when its first answers have been given. */
  ghost predicate Used(before: seq<bool>, after: seq<bool>) {
    |after| <= |before| && before[|before| - |after|..] == after
  }

  /** And none of the answers that were given is a failure. */
  ghost predicate Quiet(before: seq<bool>, after: seq<bool>) {
    Used(before, after) && forall i :: 0 <= i < |before| - |after| ==> !before[i]
  }

  lemma UsedTwice(first: seq<bool>, middle: seq<bool>, last: seq<bool>)
    requires Used(first, middle) && Used(middle, last)
    ensures Used(first, last)
    ensures Quiet(first, last) <==> Quiet(first, middle) && Quiet(middle, last)
  {
    var n := |first| - |middle|;
    assert forall i :: n <= i < |first| ==> first[i] == middle[i - n];
    if Quiet(first, last) {
      assert forall i :: 0 <= i < |middle| - |last| ==> middle[i] == first[n + i];
    }
  }

  lemma NotUsed(script: seq<bool>)
    ensures Quiet(script, script)
  {
  }

  /** Each entry of the script decides one coming call; past its end every call succeeds. */
  class Environment {
    var script: seq<bool>

    constructor (script: seq<bool>)
      ensures this.script == script
    {
      this.script := script;
    }

    /** The next call fails. */
    predicate Fails()
      reads this
    {
      script != [] && script[0]
    }

    method Ask() returns (fails: bool)
      modifies this
      ensures fails == old(Fails())
      ensures script == if old(script) == [] then [] else old(script)[1..]
      ensures Used(old(script), script) && (fails <==> !Quiet(old(script), script))
    {
      fails := script != [] && script[0];
      if script != [] {
        script := script[1..];
      }
    }
  }
}
