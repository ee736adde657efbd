/** The fixed split of sampled addresses into user space and kernel space (`isuser`, `divrips`). */
module AddressSpace {
  import opened Text
  import opened Order

  /** The text every user-space address starts with. */
  const UserPrefix := "00002c8"

  /** `isuser`: the address string starts with the user-space prefix. */
  predicate IsUser(r: string) {
    |UserPrefix| <= |r| && r[..|UserPrefix|] == UserPrefix
  }

  /** The user-space addresses of `rips`, in order. */
  function UserRips(rips: seq<string>): seq<string> {
    if |rips| == 0 then []
    else
      var r := rips[|rips| - 1];
      UserRips(rips[..|rips| - 1]) + (if IsUser(r) then [r] else [])
  }

  /** The kernel-space addresses of `rips`, in order. */
  function KernelRips(rips: seq<string>): seq<string> {
    if |rips| == 0 then []
    else
      var r := rips[|rips| - 1];
      KernelRips(rips[..|rips| - 1]) + (if IsUser(r) then [] else [r])
  }

  /** `divrips`: one pass that sends each address to the user list or to the kernel list. */
  method DivRips(rips: seq<string>) returns (ur: seq<string>, kr: seq<string>)
    ensures ur == UserRips(rips) && kr == KernelRips(rips)
  {
    ur, kr := [], [];
    for i := 0 to |rips|
      invariant ur == UserRips(rips[..i]) && kr == KernelRips(rips[..i])
    {
      assert rips[..i + 1][..i] == rips[..i];
      if IsUser(rips[i]) {
        ur := ur + [rips[i]];
      } else {
        kr := kr + [rips[i]];
      }
    }
    assert rips[..|rips|] == rips;
  }

  /**
   * The split is a partition: every address goes to exactly one side, so
   * the two lists together hold the input's addresses, counted with
   * multiplicity, and their lengths add up.
   */
  lemma {:induction false} PartitionCounts(rips: seq<string>)
    ensures multiset(UserRips(rips)) + multiset(KernelRips(rips)) == multiset(rips)
    ensures |UserRips(rips)| + |KernelRips(rips)| == |rips|
  {
    if |rips| > 0 {
      var p, r := rips[..|rips| - 1], rips[|rips| - 1];
      PartitionCounts(p);
      assert rips == p + [r];
      assert multiset(rips) == multiset(p) + multiset{r};
      if IsUser(r) {
        assert UserRips(rips) == UserRips(p) + [r];
        assert KernelRips(rips) == KernelRips(p) + [];
      } else {
        assert UserRips(rips) == UserRips(p) + [];
        assert KernelRips(rips) == KernelRips(p) + [r];
      }
    }
  }

  /** Each side holds exactly the addresses of its kind. */
  lemma {:induction false} PartitionMembers(rips: seq<string>, x: string)
    ensures x in UserRips(rips) <==> x in rips && IsUser(x)
    ensures x in KernelRips(rips) <==> x in rips && !IsUser(x)
  {
    if |rips| > 0 {
      var p := rips[..|rips| - 1];
      PartitionMembers(p, x);
      assert rips == p + [rips[|rips| - 1]];
    }
  }

  /** The split keeps input order: splitting a concatenation concatenates the splits. */
  lemma {:induction false} PartitionStable(a: seq<string>, b: seq<string>)
    ensures UserRips(a + b) == UserRips(a) + UserRips(b)
    ensures KernelRips(a + b) == KernelRips(a) + KernelRips(b)
  {
    if |b| == 0 {
      assert a + b == a;
    } else {
      var n := |b| - 1;
      assert (a + b)[..|a| + n] == a + b[..n];
      assert (a + b)[|a| + n] == b[n];
      PartitionStable(a, b[..n]);
    }
  }

  /** The value of the user-space prefix: user addresses start at 0x2c8 in their top seven digits. */
  lemma UserPrefixValue()
    ensures LowerHex(UserPrefix) && HexOf(UserPrefix) == 0x2c8
  {
    var s := UserPrefix;
    assert s[6..] == "8" && s[6..][1..] == [];
    assert HexOf(s[6..]) == 8;
    assert s[5..][1..] == s[6..];
    assert HexOf(s[5..]) == 12 * 16 + 8;
    assert s[4..][1..] == s[5..];
    assert HexOf(s[4..]) == 0x2c8;
    assert s[3..][1..] == s[4..];
    assert s[2..][1..] == s[3..];
    assert s[1..][1..] == s[2..];
    assert HexOf(s[3..]) == 0x2c8;
    assert HexOf(s[2..]) == 0x2c8;
    assert HexOf(s[1..]) == 0x2c8;
  }

  /** Lower-case hex strings of one width with the same value are the same string. */
  lemma HexOfInjective(a: string, b: string)
    requires LowerHex(a) && LowerHex(b) && |a| == |b|
    requires HexOf(a) == HexOf(b)
    ensures a == b
  {
    if a != b {
      LexTotal(a, b);
      if LexLess(a, b) {
        HexOrderIsLexOrder(a, b);
      } else {
        HexOrderIsLexOrder(b, a);
      }
    }
  }

  /** A leading digit group h over a place value p, followed by less than p, lies in [c * p, (c + 1) * p) only when h == c. */
  lemma LeadingGroup(h: nat, c: nat, p: nat, r: nat)
    requires r < p
    ensures c * p <= h * p + r < (c + 1) * p <==> h == c
  {
    if h < c {
      MulMono(h + 1, c, p);
    } else if h > c {
      MulMono(c + 1, h, p);
    }
  }

  /**
   * For lower-case hex addresses of one width w >= 7, `isuser` is a numeric
   * range: exactly the addresses in [0x2c8 * 16^(w-7), 0x2c9 * 16^(w-7)).
   */
  lemma UserSpan(s: string)
    requires LowerHex(s) && |s| >= |UserPrefix|
    ensures AllHex(s)
    ensures IsUser(s) <==> 0x2c8 * Pow16(|s| - 7) <= HexOf(s) < 0x2c9 * Pow16(|s| - 7)
  {
    var hd, tl := s[..7], s[7..];
    assert LowerHex(hd) && LowerHex(tl);
    assert IsUser(s) <==> hd == UserPrefix;
    HexOfSplit(s, 7);
    var h, p, r := HexOf(hd), Pow16(|s| - 7), HexOf(tl);
    LeadingGroup(h, 0x2c8, p, r);
    UserPrefixValue();
    if h == 0x2c8 {
      HexOfInjective(hd, UserPrefix);
    }
  }
}
