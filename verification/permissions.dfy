/** Who issued a command, and the vault numbers a player's permission nodes grant. */
module Permissions {
  import opened Options
  import opened JavaText
  import opened JavaInt

  /** The command sender.  A player carries the names of its effective
      permission attachments, in the order the server iterates them, and the
      answer the server gives to hasPermission for the admin node. */
  datatype Sender =
    | Console
    | Player(id: string, isAdmin: bool, permissions: seq<string>)

  /** Permission nodes of the form playervaults.amount.<N> grant vault N. */
  const AmountPrefix: string := "playervaults.amount."

  /** The vault number one permission grants, if any: the node must start with
      the prefix, every occurrence of the prefix is removed, and what is left
      must parse as an int. */
  function GrantedNumber(permission: string): (r: Option<int>)
    ensures r.Some? ==> StartsWith(permission, AmountPrefix) && InInt32Range(r.value)
    ensures !StartsWith(permission, AmountPrefix) ==> r == None
  {
    if StartsWith(permission, AmountPrefix) then ParseInt(RemoveAll(permission, AmountPrefix)) else None
  }

  /** What one permission adds to the list: its number printed by valueOf, or nothing. */
  function EntryOf(permission: string): (r: seq<string>)
    ensures |r| <= 1
    ensures |r| == 1 <==> GrantedNumber(permission).Some?
  {
    match GrantedNumber(permission)
    case Some(n) => [ToDecimal(n)]
    case None => []
  }

  /** The entries `entry` gives for each element, concatenated in order. */
  function Collect<A, B>(xs: seq<A>, entry: A -> seq<B>): seq<B>
    decreases |xs|
  {
    if |xs| == 0 then [] else Collect(xs[..|xs| - 1], entry) + entry(xs[|xs| - 1])
  }

  /** Something is collected exactly when one element's entries hold it. */
  lemma {:induction false} CollectMembers<A, B>(xs: seq<A>, entry: A -> seq<B>, y: B)
    ensures y in Collect(xs, entry) <==> exists k :: 0 <= k < |xs| && y in entry(xs[k])
    decreases |xs|
  {
    if |xs| > 0 {
      var init := xs[..|xs| - 1];
      CollectMembers(init, entry, y);
      if y in Collect(init, entry) {
        var k :| 0 <= k < |init| && y in entry(init[k]);
        assert xs[k] == init[k];
      }
      if exists k :: 0 <= k < |xs| && y in entry(xs[k]) {
        var k :| 0 <= k < |xs| && y in entry(xs[k]);
        if k < |init| {
          assert init[k] == xs[k];
        }
      }
    }
  }

  /** The list getAvailableVaults returns, one entry per granting permission, in order. */
  function AvailableVaults(permissions: seq<string>): (r: seq<string>)
    ensures |r| <= |permissions|
    ensures forall k :: 0 <= k < |r| ==> IsCanonicalDecimal(r[k])
    decreases |permissions|
  {
    if |permissions| == 0 then []
    else AvailableVaults(permissions[..|permissions| - 1]) + EntryOf(permissions[|permissions| - 1])
  }

  /** How many of the permissions grant a vault number. */
  function CountGranting(permissions: seq<string>): nat
    decreases |permissions|
  {
    if |permissions| == 0 then 0
    else
      CountGranting(permissions[..|permissions| - 1])
        + (if GrantedNumber(permissions[|permissions| - 1]).Some? then 1 else 0)
  }

  /** getAvailableVaults: the loop over the effective permissions appending
      String.valueOf of every number that parses. */
  method GetAvailableVaults(player: Sender) returns (vaults: seq<string>)
    requires player.Player?
    ensures vaults == AvailableVaults(player.permissions)
  {
    var permissions := player.permissions;
    vaults := [];
    var i := 0;
    while i < |permissions|
      invariant 0 <= i <= |permissions|
      invariant vaults == AvailableVaults(permissions[..i])
    {
      var granted := ParseGrant(permissions[i]);
      AvailableVaultsStep(permissions, i, granted);
      if granted.Some? {
        vaults := vaults + [ToDecimal(granted.value)];
      }
      i := i + 1;
    }
    assert permissions[..i] == permissions;
  }

  /** The body of the loop up to the append: the prefix test, the removal of
      the prefix, and parseInt with its NumberFormatException caught. */
  method ParseGrant(perm: string) returns (granted: Option<int>)
    ensures granted == GrantedNumber(perm)
  {
    granted := None;
    if StartsWith(perm, AmountPrefix) {
      var number := RemoveAll(perm, AmountPrefix);
      granted := ParseIntAccumulating(number);
    }
  }

  /** One turn of the loop adds what the permission at index i contributes. */
  lemma AvailableVaultsStep(permissions: seq<string>, i: nat, granted: Option<int>)
    requires i < |permissions|
    requires granted == GrantedNumber(permissions[i])
    ensures AvailableVaults(permissions[..i + 1])
         == AvailableVaults(permissions[..i]) + (if granted.Some? then [ToDecimal(granted.value)] else [])
  {
    assert permissions[..i + 1][..i] == permissions[..i];
  }

  /** The list has exactly one entry per granting permission. */
  lemma {:induction false} AvailableVaultsCount(permissions: seq<string>)
    ensures |AvailableVaults(permissions)| == CountGranting(permissions)
    decreases |permissions|
  {
    if |permissions| > 0 {
      AvailableVaultsCount(permissions[..|permissions| - 1]);
    }
  }

  lemma {:induction false} AvailableVaultsIsCollect(permissions: seq<string>)
    ensures AvailableVaults(permissions) == Collect(permissions, EntryOf)
    decreases |permissions|
  {
    if |permissions| > 0 {
      AvailableVaultsIsCollect(permissions[..|permissions| - 1]);
    }
  }

  /** `x` is what `permission` contributes to the list. */
  predicate GrantsEntry(permission: string, x: string) {
    GrantedNumber(permission).Some? && x == ToDecimal(GrantedNumber(permission).value)
  }

  /** A string is listed exactly when some permission grants the number it prints. */
  lemma AvailableVaultsMembers(permissions: seq<string>, x: string)
    ensures x in AvailableVaults(permissions) <==> exists k :: 0 <= k < |permissions| && GrantsEntry(permissions[k], x)
  {
    AvailableVaultsIsCollect(permissions);
    CollectMembers(permissions, EntryOf, x);
    forall k | 0 <= k < |permissions|
      ensures x in EntryOf(permissions[k]) <==> GrantsEntry(permissions[k], x)
    {
    }
  }

  /** Every listed entry parses back to a number some permission grants. */
  lemma AvailableVaultsParse(permissions: seq<string>, x: string)
    requires x in AvailableVaults(permissions)
    ensures IsCanonicalDecimal(x)
    ensures ParseInt(x).Some? && ToDecimal(ParseInt(x).value) == x
  {
    AvailableVaultsMembers(permissions, x);
    var k :| 0 <= k < |permissions| && GrantsEntry(permissions[k], x);
    ParseToDecimal(GrantedNumber(permissions[k]).value);
  }

  /** After the prefix, text that holds no 'p' (the prefix's first letter) is
      parsed as it stands. */
  lemma GrantedNumberOfSuffix(written: string)
    requires forall k :: 0 <= k < |written| ==> written[k] != AmountPrefix[0]
    ensures GrantedNumber(AmountPrefix + written) == ParseInt(written)
  {
    RemoveAllWithoutFirstChar(written, AmountPrefix);
    RemoveAllLeading(AmountPrefix, written);
    assert (AmountPrefix + written)[..|AmountPrefix|] == AmountPrefix;
  }

  /** The node for vault n grants n. */
  lemma GrantedNumberOfNode(n: int)
    requires InInt32Range(n)
    ensures GrantedNumber(AmountPrefix + ToDecimal(n)) == Some(n)
  {
    var digits := ToDecimal(n);
    assert forall k :: 0 <= k < |digits| ==> digits[k] != AmountPrefix[0];
    GrantedNumberOfSuffix(digits);
    ParseToDecimal(n);
  }

  /** Every occurrence of the prefix is removed, not only the leading one, so
      writing the prefix twice grants the same number as writing it once. */
  lemma RepeatedPrefixIgnored(rest: string)
    ensures GrantedNumber(AmountPrefix + (AmountPrefix + rest)) == GrantedNumber(AmountPrefix + rest)
  {
    var once := AmountPrefix + rest;
    RemoveAllLeading(AmountPrefix, rest);
    RemoveAllLeading(AmountPrefix, once);
    assert once[..|AmountPrefix|] == AmountPrefix;
    assert (AmountPrefix + once)[..|AmountPrefix|] == AmountPrefix;
  }

  /** A number written with a '+' and a leading zero parses to the number. */
  lemma ParsePlusZero(n: nat)
    requires n <= MaxInt
    ensures ParseInt("+0" + ToDecimal(n)) == Some(n)
  {
    var digits := ToDecimal(n);
    var written := "+0" + digits;
    assert SignLength(written) == 1;
    assert written[1..] == "0" + digits;
    LeadingZeroAddsNothing(digits);
  }

  /** A node whose number has a '+' or leading zeros still grants it, and the
      list shows the number in canonical form. */
  lemma NonCanonicalNodeListedCanonically(n: nat)
    requires n <= MaxInt
    ensures GrantedNumber(AmountPrefix + ("+0" + ToDecimal(n))) == Some(n)
    ensures AvailableVaults([AmountPrefix + ("+0" + ToDecimal(n))]) == [ToDecimal(n)]
  {
    var written := "+0" + ToDecimal(n);
    assert forall k :: 0 <= k < |written| ==> written[k] != AmountPrefix[0] by {
      assert forall k :: 0 <= k < |ToDecimal(n)| ==> IsDigit(ToDecimal(n)[k]);
    }
    GrantedNumberOfSuffix(written);
    ParsePlusZero(n);
    var single := [AmountPrefix + written];
    assert single[..0] == [];
  }

  /** A leading zero does not change the value of a digit run. */
  lemma {:induction false} LeadingZeroAddsNothing(ds: string)
    requires AllDigits(ds)
    ensures AllDigits("0" + ds) && DigitsValue("0" + ds) == DigitsValue(ds)
    decreases |ds|
  {
    if |ds| > 0 {
      var init := ds[..|ds| - 1];
      LeadingZeroAddsNothing(init);
      assert ("0" + ds)[..|ds|] == "0" + init;
    }
  }
}
