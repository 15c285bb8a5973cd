/** onTabComplete: the vault numbers a player may open whose text starts,
    ignoring case, with what the player has typed so far. */
module TabCompletion {
  import opened JavaText
  import opened JavaInt
  import opened Permissions

  /** `sub` is `full` with some elements left out and the rest kept in order. */
  ghost predicate IsSubsequence(sub: seq<string>, full: seq<string>)
    decreases |full|
  {
    if |sub| == 0 then true
    else if |full| == 0 then false
    else (sub[0] == full[0] && IsSubsequence(sub[1..], full[1..])) || IsSubsequence(sub, full[1..])
  }

  /** The stream filter: keep, in order, the candidates that start with `typed`
      ignoring case. */
  function FilterByPrefix(candidates: seq<string>, typed: string): (r: seq<string>)
    ensures IsSubsequence(r, candidates)
    ensures forall k :: 0 <= k < |r| ==> StartsWithIgnoreCase(r[k], typed)
    ensures forall x :: x in candidates && StartsWithIgnoreCase(x, typed) ==> x in r
    ensures forall x :: multiset(r)[x] == if StartsWithIgnoreCase(x, typed) then multiset(candidates)[x] else 0
    decreases |candidates|
  {
    if |candidates| == 0 then []
    else
      var rest := FilterByPrefix(candidates[1..], typed);
      assert candidates == [candidates[0]] + candidates[1..];
      if StartsWithIgnoreCase(candidates[0], typed) then
        assert ([candidates[0]] + rest)[1..] == rest;
        [candidates[0]] + rest
      else rest
  }

  /** onTabComplete: suggestions only for a player typing the first argument. */
  function TabComplete(sender: Sender, args: seq<string>): (r: seq<string>)
    ensures !(|args| == 1 && sender.Player?) ==> r == []
    ensures |args| == 1 && sender.Player? ==>
      && IsSubsequence(r, AvailableVaults(sender.permissions))
      && (forall k :: 0 <= k < |r| ==> StartsWithIgnoreCase(r[k], args[0]))
      && (forall x :: x in AvailableVaults(sender.permissions) && StartsWithIgnoreCase(x, args[0]) ==> x in r)
      && (forall x :: multiset(r)[x] ==
            if StartsWithIgnoreCase(x, args[0]) then multiset(AvailableVaults(sender.permissions))[x] else 0)
  {
    if |args| == 1 && sender.Player? then FilterByPrefix(AvailableVaults(sender.permissions), args[0])
    else []
  }

  /** Case never matters for the candidates: valueOf prints only digits and '-'. */
  lemma CandidatesHaveNoCase(n: int)
    ensures LowerRoot(ToDecimal(n)) == ToDecimal(n)
  {
    var s := ToDecimal(n);
    assert forall k :: 0 <= k < |s| ==> s[k] == '-' || IsDigit(s[k]) by {
      forall k | 0 <= k < |s|
        ensures s[k] == '-' || IsDigit(s[k])
      {
        if !(|s| > 0 && s[0] == '-') {
        } else if k > 0 {
          assert s[1..][k - 1] == s[k];
        }
      }
    }
  }

  /** With nothing typed yet, every available vault is suggested, in order. */
  lemma {:induction false} EmptyPrefixKeepsAll(candidates: seq<string>)
    ensures FilterByPrefix(candidates, "") == candidates
    decreases |candidates|
  {
    if |candidates| > 0 {
      EmptyPrefixKeepsAll(candidates[1..]);
      EmptyPrefixMatches(candidates[0]);
      assert [candidates[0]] + candidates[1..] == candidates;
    }
  }

  /** Typing a vault number in upper or lower case gives the same suggestions. */
  lemma {:induction false} FilterIgnoresTypedCase(candidates: seq<string>, typed: string)
    ensures FilterByPrefix(candidates, LowerRoot(typed)) == FilterByPrefix(candidates, typed)
    decreases |candidates|
  {
    if |candidates| > 0 {
      StartsWithIgnoresTypedCase(candidates[0], typed);
      FilterIgnoresTypedCase(candidates[1..], typed);
    }
  }

  lemma TabCompleteIgnoresTypedCase(sender: Sender, typed: string)
    ensures TabComplete(sender, [LowerRoot(typed)]) == TabComplete(sender, [typed])
  {
    if sender.Player? {
      FilterIgnoresTypedCase(AvailableVaults(sender.permissions), typed);
    }
  }

  /** Every candidate starts with the empty text. */
  lemma EmptyPrefixMatches(candidate: string)
    ensures StartsWithIgnoreCase(candidate, "")
  {
    assert LowerRoot("") == "";
  }

  /** With nothing typed yet, a player is offered every available vault. */
  lemma TabCompleteNothingTyped(sender: Sender)
    requires sender.Player?
    ensures TabComplete(sender, [""]) == AvailableVaults(sender.permissions)
  {
    EmptyPrefixKeepsAll(AvailableVaults(sender.permissions));
  }
}
