/** `hook_ixgbe` of bypass_ipstack/genpipe.c: a byte scan over the driver's code that redirects
    relative calls of known kernel functions to the module's own. */
module HookIxgbe {
  import opened Unsigned
  import opened Wrappers

  const CALLQ: Uint8 := 0xe8

  /** Calls of `target` go to `hook`, if the rule is enabled. */
  datatype Rule = Rule(target: Uint32, hook: Uint32, enabled: bool)

  function Wrap(x: int): Uint32
  {
    x % 0x1_0000_0000
  }

  /** Where the call at offset i goes: the address behind the instruction plus the displacement. */
  function Callee(base: nat, mem: seq<Uint8>, i: nat): Uint32
    requires i + 5 <= |mem|
  {
    Wrap(base + i + 5 + Load32(mem, i + 1))
  }

  /** The displacement that makes the call at offset i go to `hook`. */
  function Displacement(base: nat, i: nat, hook: Uint32): Uint32
  {
    Wrap(hook - (base + i + 5))
  }

  /** The rule that decides where a call of `callee` ends up: every enabled rule with that target
      rewrites the call, the last one has the last word. */
  function LastRule(rules: seq<Rule>, callee: Uint32): (r: Option<Rule>)
    ensures r.Some? ==> r.value in rules && r.value.enabled && r.value.target == callee
    ensures r == None ==> forall rule :: rule in rules ==> !(rule.enabled && rule.target == callee)
  {
    if rules == [] then None
    else
      var n := |rules| - 1;
      if rules[n].enabled && rules[n].target == callee then Some(rules[n])
      else LastRule(rules[..n], callee)
  }

  /** The rule that applies to the bytes at offset i, if they are a call that one applies to. */
  function RuleAt(base: nat, rules: seq<Rule>, mem: seq<Uint8>, i: nat): Option<Rule>
    requires i + 5 <= |mem|
  {
    if mem[i] == CALLQ then LastRule(rules, Callee(base, mem, i)) else None
  }

  predicate IsSite(base: nat, rules: seq<Rule>, mem: seq<Uint8>, i: nat)
    requires i + 5 <= |mem|
  {
    RuleAt(base, rules, mem, i).Some?
  }

  /** The image with the call at offset i redirected by a rule. */
  function Redirected(base: nat, mem: seq<Uint8>, i: nat, rule: Option<Rule>): (r: seq<Uint8>)
    requires i + 5 <= |mem|
    ensures |r| == |mem|
  {
    if rule.None? then mem else Store32(mem, i + 1, Displacement(base, i, rule.value.hook))
  }

  /** Each patch makes its call go to its hook, modulo 2^32, and changes only the displacement. */
  lemma RedirectedCall(base: nat, mem: seq<Uint8>, i: nat, rule: Rule)
    requires i + 5 <= |mem|
    ensures var r := Redirected(base, mem, i, Some(rule));
            && Callee(base, r, i) == rule.hook
            && forall q :: 0 <= q < |mem| && !(i < q <= i + 4) ==> r[q] == mem[q]
  {
    hide Store32, Load32;
    var a, d := base + i + 5, Displacement(base, i, rule.hook);
    LoadStored(mem, i + 1, d);
    WrapBack(a, rule.hook);
  }

  lemma WrapBack(a: nat, hook: Uint32)
    ensures Wrap(a + Wrap(hook - a)) == hook
  {}

  /** The scan of the offsets below n, each patch seen by the offsets after it. */
  function Scan(base: nat, rules: seq<Rule>, mem: seq<Uint8>, n: nat): (r: seq<Uint8>)
    requires n + 4 <= |mem|
    ensures |r| == |mem|
  {
    if n == 0 then mem
    else
      var m := Scan(base, rules, mem, n - 1);
      Redirected(base, m, n - 1, RuleAt(base, rules, m, n - 1))
  }

  /** Where a call goes, from its bytes. */
  lemma CalleeAsWritten(base: nat, mem: seq<Uint8>, i: nat)
    requires i + 5 <= |mem|
    ensures Callee(base, mem, i)
         == (base + i + 5 + mem[i + 1] as int + 0x100 * mem[i + 2] as int + 0x1_0000 * mem[i + 3] as int
             + 0x100_0000 * mem[i + 4] as int) % 0x1_0000_0000
  {
    WordOfBytes(mem, i + 1);
    hide Load32;
  }

  /** At 0xffff0000 the call e8 00 00 10 00 goes to 0x000f0005, and to go to 0x5 it takes the
      displacement 0x00010000. */
  lemma CallAcrossTheEnd()
    ensures Callee(0xffff_0000, [0xe8, 0, 0, 0x10, 0], 0) == 0xf_0005
    ensures Displacement(0xffff_0000, 0, 0x5) == 0x1_0000
  {
    CalleeAsWritten(0xffff_0000, [0xe8, 0, 0, 0x10, 0], 0);
  }

  /** One more offset scanned: if the byte there is 0xe8 and enabled rules have the function called as
      their target, the four bytes behind it change so that the last of these rules' hook is called;
      otherwise nothing changes. */
  lemma ScanNext(base: nat, rules: seq<Rule>, mem: seq<Uint8>, n: nat)
    requires n + 5 <= |mem|
    ensures Scan(base, rules, mem, 0) == mem
    ensures var m, r := Scan(base, rules, mem, n), Scan(base, rules, mem, n + 1);
            && (forall q :: 0 <= q < |mem| && !(n < q <= n + 4) ==> r[q] == m[q])
            && (m[n] == 0xe8 ==>
                forall k :: 0 <= k < |rules| && Last(rules, k, Callee(base, m, n)) ==>
                  Callee(base, r, n) == rules[k].hook)
            && (m[n] != 0xe8 || (forall k :: 0 <= k < |rules| ==> !Last(rules, k, Callee(base, m, n))) ==> r == m)
  {
    hide Callee, Redirected;
    var m := Scan(base, rules, mem, n);
    var rule := RuleAt(base, rules, m, n);
    LastRuleIsLast(rules, Callee(base, m, n));
    if rule.Some? { RedirectedCall(base, m, n, rule.value); } else { NothingRedirected(base, m, n); }
  }

  /** Rule k is enabled for calls of `callee`, and no rule behind it is. */
  predicate Last(rules: seq<Rule>, k: nat, callee: Uint32)
    requires k < |rules|
  {
    && rules[k].enabled && rules[k].target == callee
    && forall j :: k < j < |rules| ==> !(rules[j].enabled && rules[j].target == callee)
  }

  lemma {:induction false} LastRuleIsLast(rules: seq<Rule>, callee: Uint32)
    ensures forall k :: 0 <= k < |rules| && Last(rules, k, callee) ==> LastRule(rules, callee) == Some(rules[k])
    ensures LastRule(rules, callee).Some? ==> exists k :: 0 <= k < |rules| && Last(rules, k, callee)
    decreases |rules|
  {
    if rules != [] {
      var n := |rules| - 1;
      var init := rules[..n];
      LastRuleIsLast(init, callee);
      if rules[n].enabled && rules[n].target == callee {
        assert Last(rules, n, callee);
      } else {
        forall k | 0 <= k < n ensures Last(rules, k, callee) <==> Last(init, k, callee) {}
      }
    }
  }

  lemma NothingRedirected(base: nat, mem: seq<Uint8>, i: nat)
    requires i + 5 <= |mem|
    ensures Redirected(base, mem, i, None) == mem
  {}

  /** The image meant: every site of the original image below n redirected by its rule. */
  function Meant(base: nat, rules: seq<Rule>, mem: seq<Uint8>, n: nat): (r: seq<Uint8>)
    requires n + 4 <= |mem|
    ensures |r| == |mem|
  {
    if n == 0 then mem
    else Redirected(base, Meant(base, rules, mem, n - 1), n - 1, RuleAt(base, rules, mem, n - 1))
  }

  /** The inner checks: the displacement is read once, then every rule is tried in order. */
  method ApplyRules(mem: array<Uint8>, base: nat, rules: seq<Rule>, i: nat)
    requires i + 5 <= mem.Length && mem[i] == CALLQ
    modifies mem
    ensures mem[..] == Redirected(base, old(mem[..]), i, RuleAt(base, rules, old(mem[..]), i))
  {
    hide Store32, Load32, Displacement;
    ghost var before := mem[..];
    var dest := ReadDisplacement(mem, i);
    for k := 0 to |rules|
      invariant mem[..] == Redirected(base, before, i, LastRule(rules[..k], Callee(base, before, i)))
    {
      assert rules[..k + 1][..k] == rules[..k];
      if rules[k].enabled && Wrap(base + i + 5 + dest) == rules[k].target {
        StoreTwice(before, mem[..], i + 1, Displacement(base, i, rules[k].hook));
        WriteDisplacement(mem, i, Displacement(base, i, rules[k].hook));
      }
    }
    assert rules[..|rules|] == rules;
  }

  method ReadDisplacement(mem: array<Uint8>, i: nat) returns (dest: Uint32)
    requires i + 5 <= mem.Length
    ensures dest == Load32(mem[..], i + 1)
  {
    dest := Pair(mem[i + 2], mem[i + 1]) as int + 0x1_0000 * Pair(mem[i + 4], mem[i + 3]) as int;
  }

  method WriteDisplacement(mem: array<Uint8>, i: nat, d: Uint32)
    requires i + 5 <= mem.Length
    modifies mem
    ensures mem[..] == Store32(old(mem[..]), i + 1, d)
  {
    mem[i + 1] := d % 0x100;
    mem[i + 2] := d / 0x100 % 0x100;
    mem[i + 3] := d / 0x1_0000 % 0x100;
    mem[i + 4] := d / 0x100_0000;
  }

  /** Storing over a store leaves the last one. */
  lemma StoreTwice(before: seq<Uint8>, m: seq<Uint8>, p: nat, x: Uint32)
    requires p + 4 <= |before| == |m| && forall q :: 0 <= q < |m| && !(p <= q < p + 4) ==> m[q] == before[q]
    ensures Store32(m, p, x) == Store32(before, p, x)
  {}

  /** The kernel functions that calls are redirected from, and the module's replacements. */
  datatype Functions = Functions(netifReceiveSkb: nat, napiGroReceive: nat, netifRx: nat,
                                 netdevAllocSkb: nat, kfreeSkb: nat, devKfreeSkbAny: nat)

  /** The six checks in their order. The fourth asks for `level > 1`, the last two for
      `level >> 1`, which also holds for a negative level. */
  function Rules(found: Functions, hooks: Functions, level: int): seq<Rule>
  {
    [Rule(Wrap(found.netifReceiveSkb), Wrap(hooks.netifReceiveSkb), true),
     Rule(Wrap(found.napiGroReceive), Wrap(hooks.napiGroReceive), true),
     Rule(Wrap(found.netifRx), Wrap(hooks.netifRx), true),
     Rule(Wrap(found.netdevAllocSkb), Wrap(hooks.netdevAllocSkb), level > 1),
     Rule(Wrap(found.kfreeSkb), Wrap(hooks.kfreeSkb), level / 2 != 0),
     Rule(Wrap(found.devKfreeSkbAny), Wrap(hooks.devKfreeSkbAny), level / 2 != 0)]
  }

  /** The order of the checks, which matters where two functions have the same address modulo 2^32. */
  lemma RuleOrder(found: Functions, hooks: Functions, level: int)
    ensures var rules := Rules(found, hooks, level);
            && |rules| == 6
            && rules[0].target == found.netifReceiveSkb % 0x1_0000_0000 && rules[0].enabled
            && rules[1].target == found.napiGroReceive % 0x1_0000_0000 && rules[1].enabled
            && rules[2].target == found.netifRx % 0x1_0000_0000 && rules[2].enabled
            && rules[3].target == found.netdevAllocSkb % 0x1_0000_0000
            && rules[4].target == found.kfreeSkb % 0x1_0000_0000
            && rules[5].target == found.devKfreeSkbAny % 0x1_0000_0000
  {}

  /** `hook_ixgbe` on the code from `base` on, n bytes long; the last displacement may lie behind
      it. */
  method HookIxgbe(mem: array<Uint8>, base: nat, n: nat, found: Functions, hooks: Functions,
                   cleanRxIrq: nat, level: int)
    returns (r: int)
    requires n + 4 <= mem.Length
    modifies mem
    ensures r == -1 <==> found.netifReceiveSkb == 0 || cleanRxIrq == 0 || found.napiGroReceive == 0
                         || found.netifRx == 0 || found.netdevAllocSkb == 0
    ensures r == -1 ==> mem[..] == old(mem[..])
    ensures r == -1 || r == 0
    ensures r == 0 ==> mem[..] == Scan(base, Rules(found, hooks, level), old(mem[..]), n)
  {
    hide Redirected, RuleAt, Rules;
    if found.netifReceiveSkb == 0 || cleanRxIrq == 0 { return -1; }
    if found.napiGroReceive == 0 || cleanRxIrq == 0 || found.netifRx == 0 { return -1; }
    if found.netdevAllocSkb == 0 { return -1; }
    ghost var before := mem[..];
    var rules := Rules(found, hooks, level);
    for i := 0 to n
      invariant mem[..] == Scan(base, rules, before, i)
    {
      if mem[i] == CALLQ {
        ApplyRules(mem, base, rules, i);
      } else {
        NoCall(base, rules, mem[..], i);
      }
    }
    return 0;
  }

  lemma NoCall(base: nat, rules: seq<Rule>, mem: seq<Uint8>, i: nat)
    requires i + 5 <= |mem| && mem[i] != CALLQ
    ensures Redirected(base, mem, i, RuleAt(base, rules, mem, i)) == mem
  {}

  /** No two matching calls of an image overlap. */
  ghost predicate Apart(base: nat, rules: seq<Rule>, mem: seq<Uint8>, n: nat)
    requires n + 4 <= |mem|
  {
    forall i, j :: 0 <= i < j < n && IsSite(base, rules, mem, i) && IsSite(base, rules, mem, j) ==> i + 5 <= j
  }

  /** Offset p lies in the displacement of a matching call of the original image. */
  ghost predicate InsideSite(base: nat, rules: seq<Rule>, mem: seq<Uint8>, p: nat)
    requires p + 5 <= |mem|
  {
    exists i :: 0 <= i < p <= i + 4 && IsSite(base, rules, mem, i)
  }

  /** No rewritten displacement is taken for a call of its own when the scan runs over it. */
  ghost predicate Quiet(base: nat, rules: seq<Rule>, mem: seq<Uint8>, n: nat)
    requires n + 4 <= |mem|
  {
    forall p :: 0 <= p < n && InsideSite(base, rules, mem, p) ==>
      !IsSite(base, rules, Meant(base, rules, mem, p), p)
  }

  /** Meant leaves every byte alone that is in no displacement of a site. */
  lemma {:induction false} MeantElsewhere(base: nat, rules: seq<Rule>, mem: seq<Uint8>, n: nat, q: nat)
    requires n + 4 <= |mem| && q < |mem|
    requires forall i :: 0 <= i < n && i < q <= i + 4 ==> !IsSite(base, rules, mem, i)
    ensures Meant(base, rules, mem, n)[q] == mem[q]
    decreases n
  {
    hide RuleAt, Redirected;
    if n > 0 {
      MeantElsewhere(base, rules, mem, n - 1, q);
      assert n - 1 < q <= n + 3 ==> !IsSite(base, rules, mem, n - 1);
      RedirectedElsewhere(base, Meant(base, rules, mem, n - 1), n - 1, RuleAt(base, rules, mem, n - 1), q);
    }
  }

  lemma RedirectedElsewhere(base: nat, mem: seq<Uint8>, i: nat, rule: Option<Rule>, q: nat)
    requires i + 5 <= |mem| && q < |mem|
    ensures rule.None? || !(i < q <= i + 4) ==> Redirected(base, mem, i, rule)[q] == mem[q]
  {}

  /** Bytes that agree decide alike. */
  lemma SameDecision(base: nat, rules: seq<Rule>, a: seq<Uint8>, b: seq<Uint8>, p: nat)
    requires p + 5 <= |a| == |b| && forall q :: p <= q < p + 5 ==> a[q] == b[q]
    ensures RuleAt(base, rules, a, p) == RuleAt(base, rules, b, p)
  {}

  /** As the scan reaches p with everything before it as meant, it decides as on the original. */
  lemma DecidesAsMeant(base: nat, rules: seq<Rule>, mem: seq<Uint8>, n: nat, p: nat)
    requires n + 4 <= |mem| && p < n
    requires Apart(base, rules, mem, n) && Quiet(base, rules, mem, n)
    ensures RuleAt(base, rules, Meant(base, rules, mem, p), p) == RuleAt(base, rules, mem, p)
  {
    hide RuleAt, Meant;
    if InsideSite(base, rules, mem, p) {
      var i :| 0 <= i < p <= i + 4 && IsSite(base, rules, mem, i);
      assert !IsSite(base, rules, mem, p);
    } else {
      forall q | p <= q < p + 5 ensures Meant(base, rules, mem, p)[q] == mem[q] {
        MeantElsewhere(base, rules, mem, p, q);
      }
      SameDecision(base, rules, Meant(base, rules, mem, p), mem, p);
    }
  }

  /** Scan-and-patch correctness: if no two matching calls overlap and no rewritten displacement
      forms a new match, the scan leaves the original image with exactly the matching calls of
      enabled rules redirected. */
  lemma {:induction false} ScanIsMeant(base: nat, rules: seq<Rule>, mem: seq<Uint8>, n: nat, p: nat)
    requires n + 4 <= |mem| && p <= n
    requires Apart(base, rules, mem, n) && Quiet(base, rules, mem, n)
    ensures Scan(base, rules, mem, p) == Meant(base, rules, mem, p)
    decreases p
  {
    hide RuleAt, Redirected, Apart, Quiet;
    if p > 0 {
      ScanIsMeant(base, rules, mem, n, p - 1);
      DecidesAsMeant(base, rules, mem, n, p - 1);
    }
  }

  /** No hook is itself a function that calls are redirected from. */
  ghost predicate HooksAreNew(rules: seq<Rule>)
  {
    forall i, j :: 0 <= i < |rules| && 0 <= j < |rules| ==> rules[i].hook != rules[j].target
  }

  /** Then a patch always changes the image. */
  lemma PatchShows(base: nat, rules: seq<Rule>, mem: seq<Uint8>, i: nat)
    requires i + 5 <= |mem| && HooksAreNew(rules) && IsSite(base, rules, mem, i)
    ensures Redirected(base, mem, i, RuleAt(base, rules, mem, i)) != mem
  {
    hide Redirected, Callee;
    var rule := RuleAt(base, rules, mem, i).value;
    assert rule in rules && rule.target == Callee(base, mem, i);
    RedirectedCall(base, mem, i, rule);
  }

  /** As the scan reaches p, the image is as meant. */
  ghost predicate AsMeant(base: nat, rules: seq<Rule>, mem: seq<Uint8>, p: nat)
    requires p + 4 <= |mem|
  {
    Scan(base, rules, mem, p) == Meant(base, rules, mem, p)
  }

  /** And the quietness is needed: while matching calls do not overlap, the image is as meant at
      every point of the scan if and only if no rewritten displacement forms a new match. */
  lemma MeantThroughout(base: nat, rules: seq<Rule>, mem: seq<Uint8>, n: nat)
    requires n + 4 <= |mem| && Apart(base, rules, mem, n) && HooksAreNew(rules)
    ensures (forall p: nat :: p <= n ==> AsMeant(base, rules, mem, p))
       <==> Quiet(base, rules, mem, n)
  {
    hide RuleAt, Redirected, HooksAreNew;
    if Quiet(base, rules, mem, n) {
      forall p: nat | p <= n ensures AsMeant(base, rules, mem, p) {
        ScanIsMeant(base, rules, mem, n, p);
      }
    } else {
      var p: nat :| p < n && InsideSite(base, rules, mem, p) && IsSite(base, rules, Meant(base, rules, mem, p), p);
      PatchShows(base, rules, Meant(base, rules, mem, p), p);
      assert !IsSite(base, rules, mem, p);
      NoPatch(base, Meant(base, rules, mem, p), p);
      assert AsMeant(base, rules, mem, p) ==> !AsMeant(base, rules, mem, p + 1);
    }
  }

  lemma NoPatch(base: nat, mem: seq<Uint8>, i: nat)
    requires i + 5 <= |mem|
    ensures Redirected(base, mem, i, None) == mem
  {}

  /** An image that is not quiet: redirecting its only call writes a byte 0xe8, the bytes from there
      on call the second target, and the scan patches them too. The call then misses its hook. */
  lemma PatchOfAPatch()
    ensures var rules := [Rule(5, 0xed, true), Rule(6, 0x3e8, true)];
            var mem: seq<Uint8> := [CALLQ, 0, 0, 0, 0, 0];
            && Apart(0, rules, mem, 2) && IsSite(0, rules, mem, 0) && !Quiet(0, rules, mem, 2)
            && Callee(0, Scan(0, rules, mem, 2), 0) != 0xed
  {
    hide Callee, Scan, Meant, LastRule, Apart, Quiet, Store32;
    var first, second := Rule(5, 0xed, true), Rule(6, 0x3e8, true);
    var rules := [first, second];
    var mem: seq<Uint8> := [CALLQ, 0, 0, 0, 0, 0];
    var patched: seq<Uint8> := [CALLQ, CALLQ, 0, 0, 0, 0];
    ThreeImages();
    TwoRules(first, second);
    assert RuleAt(0, rules, mem, 0) == Some(first) && RuleAt(0, rules, mem, 1) == None;
    assert RuleAt(0, rules, patched, 1) == Some(second);
    TwoSteps(0, rules, mem);
  }

  lemma ThreeImages()
    ensures Callee(0, [CALLQ, 0, 0, 0, 0, 0], 0) == 5
    ensures Callee(0, [CALLQ, CALLQ, 0, 0, 0, 0], 1) == 6
    ensures Callee(0, [CALLQ, CALLQ, 0xe2, 3, 0, 0], 0) != 0xed
    ensures Redirected(0, [CALLQ, 0, 0, 0, 0, 0], 0, Some(Rule(5, 0xed, true))) == [CALLQ, CALLQ, 0, 0, 0, 0]
    ensures Redirected(0, [CALLQ, CALLQ, 0, 0, 0, 0], 1, Some(Rule(6, 0x3e8, true)))
         == [CALLQ, CALLQ, 0xe2, 3, 0, 0]
  {}

  lemma TwoRules(first: Rule, second: Rule)
    requires first.enabled && second.enabled && first.target != second.target
    ensures LastRule([first, second], first.target) == Some(first)
    ensures LastRule([first, second], second.target) == Some(second)
  {
    assert [first, second][..1] == [first];
  }

  lemma TwoSteps(base: nat, rules: seq<Rule>, mem: seq<Uint8>)
    requires |mem| == 6 && IsSite(base, rules, mem, 0) && !IsSite(base, rules, mem, 1)
    ensures Apart(base, rules, mem, 2)
    ensures var patched := Redirected(base, mem, 0, RuleAt(base, rules, mem, 0));
            && Scan(base, rules, mem, 2) == Redirected(base, patched, 1, RuleAt(base, rules, patched, 1))
            && (IsSite(base, rules, patched, 1) ==> !Quiet(base, rules, mem, 2))
  {
    hide RuleAt, Redirected;
    var patched := Redirected(base, mem, 0, RuleAt(base, rules, mem, 0));
    assert Scan(base, rules, mem, 1) == patched && Meant(base, rules, mem, 1) == patched;
    assert InsideSite(base, rules, mem, 1);
  }

  /** In the meant image every site calls its hook, is still a call, and all bytes outside the
      displacements of sites are the original ones. */
  lemma {:induction false} MeantCalls(base: nat, rules: seq<Rule>, mem: seq<Uint8>, n: nat, m: nat, i: nat)
    requires n + 4 <= |mem| && i < m <= n && Apart(base, rules, mem, n) && IsSite(base, rules, mem, i)
    ensures var r := Meant(base, rules, mem, m);
            r[i] == CALLQ && Callee(base, r, i) == RuleAt(base, rules, mem, i).value.hook
    decreases m
  {
    hide RuleAt, Redirected, Callee;
    var before, rule := Meant(base, rules, mem, m - 1), RuleAt(base, rules, mem, m - 1);
    if i == m - 1 {
      RedirectedCall(base, before, i, rule.value);
      MeantElsewhere(base, rules, mem, m - 1, i);
      SiteIsCall(base, rules, mem, i);
    } else {
      MeantCalls(base, rules, mem, n, m - 1, i);
      assert IsSite(base, rules, mem, m - 1) ==> i + 5 <= m - 1;
      forall q | i <= q < i + 5 ensures Meant(base, rules, mem, m)[q] == before[q] {
        RedirectedElsewhere(base, before, m - 1, rule, q);
      }
      SameCallee(base, before, Meant(base, rules, mem, m), i);
    }
  }

  lemma SiteIsCall(base: nat, rules: seq<Rule>, mem: seq<Uint8>, i: nat)
    requires i + 5 <= |mem| && IsSite(base, rules, mem, i)
    ensures mem[i] == CALLQ
  {}

  lemma SameCallee(base: nat, a: seq<Uint8>, b: seq<Uint8>, i: nat)
    requires i + 5 <= |a| == |b| && forall q :: i <= q < i + 5 ==> a[q] == b[q]
    ensures Callee(base, a, i) == Callee(base, b, i)
  {}

  /** The byte at q is in no displacement of a matching call. */
  ghost predicate Untouched(base: nat, rules: seq<Rule>, mem: seq<Uint8>, n: nat, q: nat)
    requires n + 4 <= |mem|
  {
    forall i :: 0 <= i < n && i < q <= i + 4 ==> !IsSite(base, rules, mem, i)
  }

  /** The image that the scan leaves: every matching call of an enabled rule goes to its hook, and
      every byte outside the displacements of such calls is the original one. */
  lemma HookedImage(base: nat, rules: seq<Rule>, mem: seq<Uint8>, n: nat)
    requires n + 4 <= |mem| && Apart(base, rules, mem, n) && Quiet(base, rules, mem, n)
    ensures var r := Scan(base, rules, mem, n);
            && (forall i :: 0 <= i < n && IsSite(base, rules, mem, i) ==>
                  r[i] == CALLQ && Callee(base, r, i) == RuleAt(base, rules, mem, i).value.hook)
            && forall q :: 0 <= q < |mem| && Untouched(base, rules, mem, n, q) ==> r[q] == mem[q]
  {
    hide RuleAt, Redirected, Scan, Meant, Callee, Apart, Quiet;
    ScanIsMeant(base, rules, mem, n, n);
    var r := Scan(base, rules, mem, n);
    forall i | 0 <= i < n && IsSite(base, rules, mem, i)
      ensures r[i] == CALLQ && Callee(base, r, i) == RuleAt(base, rules, mem, i).value.hook
    {
      MeantCalls(base, rules, mem, n, n, i);
    }
    forall q | 0 <= q < |mem| && Untouched(base, rules, mem, n, q)
      ensures r[q] == mem[q]
    {
      MeantElsewhere(base, rules, mem, n, q);
    }
  }

  /** No new displacement contains the byte 0xe8: a condition on the hooks that can be checked
      before the scan and keeps it quiet. */
  ghost predicate NoCallBytes(base: nat, rules: seq<Rule>, mem: seq<Uint8>, n: nat)
    requires n + 4 <= |mem|
  {
    forall i, q :: 0 <= i < n && i < q <= i + 4 && IsSite(base, rules, mem, i) ==>
      Redirected(base, mem, i, RuleAt(base, rules, mem, i))[q] != CALLQ
  }

  /** The displacement written for a site stands in the meant image as it was written. */
  lemma {:induction false} MeantDisplacement(base: nat, rules: seq<Rule>, mem: seq<Uint8>, n: nat, m: nat,
                                             i: nat, q: nat)
    requires n + 4 <= |mem| && i < m <= n && i < q <= i + 4 && Apart(base, rules, mem, n)
    requires IsSite(base, rules, mem, i)
    ensures Meant(base, rules, mem, m)[q] == Redirected(base, mem, i, RuleAt(base, rules, mem, i))[q]
    decreases m
  {
    hide RuleAt, Redirected;
    var before, rule := Meant(base, rules, mem, m - 1), RuleAt(base, rules, mem, m - 1);
    if i == m - 1 {
      SameStore(base, before, mem, i, rule, q);
    } else {
      MeantDisplacement(base, rules, mem, n, m - 1, i, q);
      assert IsSite(base, rules, mem, m - 1) ==> i + 5 <= m - 1;
      RedirectedElsewhere(base, before, m - 1, rule, q);
    }
  }

  lemma SameStore(base: nat, a: seq<Uint8>, b: seq<Uint8>, i: nat, rule: Option<Rule>, q: nat)
    requires i + 5 <= |a| == |b| && i < q <= i + 4 && rule.Some?
    ensures Redirected(base, a, i, rule)[q] == Redirected(base, b, i, rule)[q]
  {
    hide Displacement;
  }

  lemma NoCallBytesIsQuiet(base: nat, rules: seq<Rule>, mem: seq<Uint8>, n: nat)
    requires n + 4 <= |mem| && Apart(base, rules, mem, n) && NoCallBytes(base, rules, mem, n)
    ensures Quiet(base, rules, mem, n)
  {
    hide RuleAt, Redirected, Meant;
    forall p | 0 <= p < n && InsideSite(base, rules, mem, p)
      ensures !IsSite(base, rules, Meant(base, rules, mem, p), p)
    {
      var i :| 0 <= i < p <= i + 4 && IsSite(base, rules, mem, i);
      MeantDisplacement(base, rules, mem, n, p, i, p);
      NoSite(base, rules, Meant(base, rules, mem, p), p);
    }
  }

  lemma NoSite(base: nat, rules: seq<Rule>, mem: seq<Uint8>, i: nat)
    requires i + 5 <= |mem|
    ensures mem[i] != CALLQ ==> !IsSite(base, rules, mem, i)
  {}

  /** Different kernel functions have different addresses modulo 2^32. */
  ghost predicate DistinctTargets(rules: seq<Rule>)
  {
    forall i, j :: 0 <= i < j < |rules| ==> rules[i].target != rules[j].target
  }

  lemma {:induction false} OnlyRule(rules: seq<Rule>, k: nat)
    requires DistinctTargets(rules) && k < |rules|
    ensures LastRule(rules, rules[k].target) == if rules[k].enabled then Some(rules[k]) else None
    decreases |rules|
  {
    var n := |rules| - 1;
    if k == n {
      if !rules[k].enabled { NoOtherRule(rules, k); }
    } else {
      OnlyRule(rules[..n], k);
    }
  }

  lemma NoOtherRule(rules: seq<Rule>, k: nat)
    requires DistinctTargets(rules) && k < |rules| && !rules[k].enabled
    ensures LastRule(rules, rules[k].target) == None
  {}

  /** What becomes of the calls of one function: with `on` they all go to the hook; otherwise they
      stay as they are, unless the displacement of another call overlaps them. */
  ghost predicate CallsGo(base: nat, rules: seq<Rule>, mem: seq<Uint8>, n: nat, target: Uint32, hook: Uint32, on: bool)
    requires n + 4 <= |mem|
  {
    var r := Scan(base, rules, mem, n);
    forall i :: 0 <= i < n && mem[i] == CALLQ && Callee(base, mem, i) == target ==>
      if on then r[i] == CALLQ && Callee(base, r, i) == hook
      else forall q :: i <= q < i + 5 && Untouched(base, rules, mem, n, q) ==> r[q] == mem[q]
  }

  lemma RuleDecides(base: nat, rules: seq<Rule>, mem: seq<Uint8>, n: nat, k: nat)
    requires n + 4 <= |mem| && Apart(base, rules, mem, n) && Quiet(base, rules, mem, n)
    requires DistinctTargets(rules) && k < |rules|
    ensures CallsGo(base, rules, mem, n, rules[k].target, rules[k].hook, rules[k].enabled)
  {
    hide Scan, Callee, Apart, Quiet, DistinctTargets, LastRule, Untouched;
    OnlyRule(rules, k);
    HookedImage(base, rules, mem, n);
  }

  /** Which calls end up where: with distinct targets, packets handed up always go to the module,
      buffer allocation from level 2 on, and the two ways of freeing a buffer when `level >> 1` is
      not zero, at negative levels too. */
  lemma RedirectionsByLevel(base: nat, found: Functions, hooks: Functions, level: int, mem: seq<Uint8>, n: nat)
    requires var rules := Rules(found, hooks, level);
             && n + 4 <= |mem| && (forall i, j :: 0 <= i < j < 6 ==> rules[i].target != rules[j].target)
             && Apart(base, rules, mem, n) && Quiet(base, rules, mem, n)
    ensures var rules := Rules(found, hooks, level);
            && CallsGo(base, rules, mem, n, Wrap(found.netifReceiveSkb), Wrap(hooks.netifReceiveSkb), true)
            && CallsGo(base, rules, mem, n, Wrap(found.napiGroReceive), Wrap(hooks.napiGroReceive), true)
            && CallsGo(base, rules, mem, n, Wrap(found.netifRx), Wrap(hooks.netifRx), true)
            && CallsGo(base, rules, mem, n, Wrap(found.netdevAllocSkb), Wrap(hooks.netdevAllocSkb), level > 1)
            && CallsGo(base, rules, mem, n, Wrap(found.kfreeSkb), Wrap(hooks.kfreeSkb), level < 0 || level > 1)
            && CallsGo(base, rules, mem, n, Wrap(found.devKfreeSkbAny), Wrap(hooks.devKfreeSkbAny),
                       level < 0 || level > 1)
  {
    var rules := Rules(found, hooks, level);
    assert DistinctTargets(rules);
    hide CallsGo, Wrap, DistinctTargets, Apart, Quiet;
    RuleDecides(base, rules, mem, n, 0);
    RuleDecides(base, rules, mem, n, 1);
    RuleDecides(base, rules, mem, n, 2);
    RuleDecides(base, rules, mem, n, 3);
    RuleDecides(base, rules, mem, n, 4);
    RuleDecides(base, rules, mem, n, 5);
  }
}
