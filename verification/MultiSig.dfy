/** The multi-signature opcode: greedy matching of signatures to keys, and its effect on the stack. */
module MultiSig {
  import opened ByteOrder
  import opened ScriptNumber

  const MAX_PUBKEYS_PER_MULTISIG: int := 20

  type Bytes = seq<byte>

  /** Whether a signature is a key's signature on the running script. */
  type SignatureChecker = (Bytes, Bytes) -> bool

  // ----- matching

  /** Signature i is checked by key f[i], and the keys are taken in order, each at most once. */
  predicate Matching(check: SignatureChecker, sigs: seq<Bytes>, keys: seq<Bytes>, f: seq<nat>) {
    && |f| == |sigs|
    && (forall i :: 0 <= i < |f| ==> f[i] < |keys| && check(sigs[i], keys[f[i]]))
    && (forall i, j :: 0 <= i < j < |f| ==> f[i] < f[j])
  }

  ghost predicate Matchable(check: SignatureChecker, sigs: seq<Bytes>, keys: seq<Bytes>) {
    exists f :: Matching(check, sigs, keys, f)
  }

  /** The number of keys used up by a matching. */
  function Used(f: seq<nat>): nat {
    if f == [] then 0 else f[|f| - 1] + 1
  }

  /** No matching of these signatures uses fewer than `used` keys. */
  ghost predicate NoneShorter(check: SignatureChecker, sigs: seq<Bytes>, keys: seq<Bytes>, used: nat) {
    forall f :: Matching(check, sigs, keys, f) ==> used <= Used(f)
  }

  lemma MatchingPrefix(check: SignatureChecker, sigs: seq<Bytes>, sig: Bytes, keys: seq<Bytes>, f: seq<nat>)
    requires Matching(check, sigs + [sig], keys, f)
    ensures Matching(check, sigs, keys, f[..|sigs|])
    ensures Used(f[..|sigs|]) < Used(f) <= |keys| && check(sig, keys[Used(f) - 1])
  {
    var g, all := f[..|sigs|], sigs + [sig];
    forall i | 0 <= i < |g| ensures g[i] < |keys| && check(sigs[i], keys[g[i]]) {
      assert all[i] == sigs[i] && f[i] == g[i];
    }
    assert all[|sigs|] == sig;
  }

  /** The next signature takes the first key beyond those used that checks it; no matching can do with less. */
  lemma TakeNext(check: SignatureChecker, sigs: seq<Bytes>, sig: Bytes, keys: seq<Bytes>, f: seq<nat>, k: nat)
    requires Matching(check, sigs, keys, f) && NoneShorter(check, sigs, keys, Used(f))
    requires Used(f) <= k < |keys| && check(sig, keys[k])
    requires forall j :: Used(f) <= j < k ==> !check(sig, keys[j])
    ensures Matching(check, sigs + [sig], keys, f + [k])
    ensures NoneShorter(check, sigs + [sig], keys, k + 1)
  {
    forall g | Matching(check, sigs + [sig], keys, g) ensures k + 1 <= Used(g) {
      MatchingPrefix(check, sigs, sig, keys, g);
    }
  }

  /** If none of the keys left checks the next signature, there is no matching at all. */
  lemma GiveUp(check: SignatureChecker, sigs: seq<Bytes>, sig: Bytes, keys: seq<Bytes>, used: nat)
    requires NoneShorter(check, sigs, keys, used)
    requires forall j :: used <= j < |keys| ==> !check(sig, keys[j])
    ensures !Matchable(check, sigs + [sig], keys)
  {
    forall g | Matching(check, sigs + [sig], keys, g) ensures false {
      MatchingPrefix(check, sigs, sig, keys, g);
    }
  }

  lemma MoreIsNotEasier(check: SignatureChecker, sigs: seq<Bytes>, sig: Bytes, keys: seq<Bytes>)
    requires !Matchable(check, sigs, keys)
    ensures !Matchable(check, sigs + [sig], keys)
  {
    forall g | Matching(check, sigs + [sig], keys, g) ensures false {
      MatchingPrefix(check, sigs, sig, keys, g);
    }
  }

  /** Greedy matching finds a matching whenever there is one. */
  method CheckMultiSig(check: SignatureChecker, pubkeys: seq<Bytes>, signatures: seq<Bytes>) returns (ok: bool)
    ensures ok <==> Matchable(check, signatures, pubkeys)
  {
    var usedPubkey: nat := 0;
    var passed: nat := 0;
    ghost var f: seq<nat> := [];
    for i := 0 to |signatures|
      invariant passed <= i && usedPubkey <= |pubkeys|
      invariant passed == i ==> Matching(check, signatures[..i], pubkeys, f)
      invariant passed == i ==> usedPubkey == Used(f) && NoneShorter(check, signatures[..i], pubkeys, usedPubkey)
      invariant passed < i ==> usedPubkey == |pubkeys| && !Matchable(check, signatures[..i], pubkeys)
    {
      var sig := signatures[i];
      var found, next := NextKey(check, sig, pubkeys, usedPubkey);
      assert signatures[..i + 1] == signatures[..i] + [sig];
      if passed < i {
        MoreIsNotEasier(check, signatures[..i], sig, pubkeys);
      } else if found {
        TakeNext(check, signatures[..i], sig, pubkeys, f, next - 1);
        f := f + [next - 1];
      } else {
        GiveUp(check, signatures[..i], sig, pubkeys, usedPubkey);
      }
      usedPubkey := next;
      if found {
        passed := passed + 1;
      }
    }
    assert signatures[..|signatures|] == signatures;
    return passed >= |signatures|;
  }

  /** The inner loop: try keys from `from` on until one checks the signature. */
  method NextKey(check: SignatureChecker, sig: Bytes, pubkeys: seq<Bytes>, from: nat) returns (found: bool, next: nat)
    requires from <= |pubkeys|
    ensures from <= next <= |pubkeys|
    ensures found ==> from < next && check(sig, pubkeys[next - 1])
    ensures !found ==> next == |pubkeys|
    ensures forall j :: from <= j < (if found then next - 1 else next) ==> !check(sig, pubkeys[j])
  {
    next := from;
    while next < |pubkeys|
      invariant from <= next <= |pubkeys|
      invariant forall j :: from <= j < next ==> !check(sig, pubkeys[j])
    {
      next := next + 1;
      if check(sig, pubkeys[next - 1]) {
        return true, next;
      }
    }
    found := false;
  }

  // ----- the machine

  /** The last two stand for a count whose decoding is undefined, and for one that trips an assertion. */
  datatype ErrorCode = OK | InvalidParam | CheckMultiSigVerify | ShiftOutOfRange | AssertionFailed

  const TRUE: Bytes := [0x51]
  const FALSE: Bytes := []

  /** Item `i` from the top of the stack, the top being 1. */
  function FromTop(stack: seq<Bytes>, i: nat): Bytes
    requires 1 <= i <= |stack|
  {
    stack[|stack| - i]
  }

  /** `count` items downwards from position `i`. */
  function Downwards(stack: seq<Bytes>, i: nat, count: nat): (r: seq<Bytes>)
    requires i >= 1 && i + count <= |stack| + 1
    ensures |r| == count
    ensures forall j :: 0 <= j < count ==> r[j] == FromTop(stack, i + j)
  {
    if count == 0 then [] else Downwards(stack, i, count - 1) + [FromTop(stack, i + count - 1)]
  }

  /** The operands of the opcode: keys and signatures, each from the top down. */
  datatype Operands = Operands(keys: seq<Bytes>, sigs: seq<Bytes>) {
    function Depth(): nat {
      |keys| + |sigs| + 3
    }
  }

  datatype Parsed = Read(operands: Operands) | Invalid | Undecodable(why: Decoding)

  /**
   * How a stack is read: a count, that many keys, a count, that many signatures, and one item
   * more that nobody looks at.
   */
  function ParseOperands(stack: seq<Bytes>): Parsed {
    if |stack| < 1 then Invalid
    else
      var keyCount := DecodingOf(FromTop(stack, 1));
      if !keyCount.Value? then Undecodable(keyCount)
      else
        var k := keyCount.v;
        if !(0 <= k < MAX_PUBKEYS_PER_MULTISIG) || |stack| < 2 + k then Invalid
        else
          var sigCount := DecodingOf(FromTop(stack, 2 + k));
          if !sigCount.Value? then Undecodable(sigCount)
          else
            var s := sigCount.v;
            if !(0 <= s <= k) || |stack| < 3 + k + s then Invalid
            else Read(Operands(Downwards(stack, 2, k), Downwards(stack, 3 + k, s)))
  }

  /** How an unsuccessful reading of the operands shows. */
  function ErrorOf(p: Parsed): (e: ErrorCode)
    requires !p.Read?
    ensures p.Invalid? <==> e == InvalidParam
    ensures p.Undecodable? && p.why == AssertionFails <==> e == AssertionFailed
    ensures e in {InvalidParam, AssertionFailed, ShiftOutOfRange}
  {
    if p.Invalid? then InvalidParam else if p.why == AssertionFails then AssertionFailed else ShiftOutOfRange
  }

  // ----- what a script pushes

  function Reversed(s: seq<Bytes>): (r: seq<Bytes>)
    ensures |r| == |s|
    ensures forall i :: 0 <= i < |s| ==> r[i] == s[|s| - 1 - i]
  {
    if s == [] then [] else Reversed(s[1..]) + [s[0]]
  }

  lemma ReversedTwice(s: seq<Bytes>)
    ensures Reversed(Reversed(s)) == s
  {
    forall i | 0 <= i < |s| ensures Reversed(Reversed(s))[i] == s[i] {
      assert Reversed(s)[|s| - 1 - i] == s[i];
    }
  }

  /** Reading both lists backwards, as the opcode does, makes no difference to what can be matched. */
  lemma MatchableBackwards(check: SignatureChecker, sigs: seq<Bytes>, keys: seq<Bytes>)
    ensures Matchable(check, Reversed(sigs), Reversed(keys)) <==> Matchable(check, sigs, keys)
  {
    ReversedTwice(sigs);
    ReversedTwice(keys);
    if Matchable(check, sigs, keys) {
      BackwardsToo(check, sigs, keys);
    } else if Matchable(check, Reversed(sigs), Reversed(keys)) {
      BackwardsToo(check, Reversed(sigs), Reversed(keys));
    }
  }

  lemma BackwardsToo(check: SignatureChecker, sigs: seq<Bytes>, keys: seq<Bytes>)
    requires Matchable(check, sigs, keys)
    ensures Matchable(check, Reversed(sigs), Reversed(keys))
  {
    var f :| Matching(check, sigs, keys, f);
    var g: seq<nat> := seq(|f|, i requires 0 <= i < |f| => |keys| - 1 - f[|f| - 1 - i]);
    MirrorIncreases(f, g, |keys|);
    MirrorChecks(check, sigs, keys, f, g);
    assert Matching(check, Reversed(sigs), Reversed(keys), g);
  }

  lemma MirrorIncreases(f: seq<nat>, g: seq<nat>, n: nat)
    requires |g| == |f| && forall i :: 0 <= i < |g| ==> g[i] == n - 1 - f[|f| - 1 - i]
    requires forall i, j :: 0 <= i < j < |f| ==> f[i] < f[j]
    ensures forall i, j :: 0 <= i < j < |g| ==> g[i] < g[j]
  {
    forall i, j | 0 <= i < j < |g| ensures g[i] < g[j] {
      assert f[|f| - 1 - j] < f[|f| - 1 - i];
    }
  }

  lemma MirrorChecks(check: SignatureChecker, sigs: seq<Bytes>, keys: seq<Bytes>, f: seq<nat>, g: seq<nat>)
    requires Matching(check, sigs, keys, f)
    requires |g| == |f| && forall i :: 0 <= i < |g| ==> g[i] == |keys| - 1 - f[|f| - 1 - i]
    ensures forall i :: 0 <= i < |g| ==> g[i] < |keys| && check(Reversed(sigs)[i], Reversed(keys)[g[i]])
  {
    forall i | 0 <= i < |g| ensures g[i] < |keys| && check(Reversed(sigs)[i], Reversed(keys)[g[i]]) {
      var k := f[|f| - 1 - i];
      assert check(sigs[|f| - 1 - i], keys[k]);
      assert Reversed(keys)[|keys| - 1 - k] == keys[k];
    }
  }

  /** The stack after a script has pushed `dummy sig_1 .. sig_m m key_1 .. key_n n` on `base`. */
  function Pushed(base: seq<Bytes>, dummy: Bytes, sigs: seq<Bytes>, m: Bytes, keys: seq<Bytes>, n: Bytes): seq<Bytes> {
    base + [dummy] + sigs + [m] + keys + [n]
  }

  /** What was pushed is what is read, each list from its end. */
  lemma PushedIsRead(base: seq<Bytes>, dummy: Bytes, sigs: seq<Bytes>, m: Bytes, keys: seq<Bytes>, n: Bytes)
    requires DecodingOf(m) == Value(|sigs|) && DecodingOf(n) == Value(|keys|) && |sigs| <= |keys| < 20
    ensures ParseOperands(Pushed(base, dummy, sigs, m, keys, n)) == Read(Operands(Reversed(keys), Reversed(sigs)))
    ensures Pushed(base, dummy, sigs, m, keys, n)[..|base|] == base
  {
    PushedParts(base, dummy, sigs, m, keys, n);
    MiddleDownwards(base + [dummy] + sigs + [m] + keys, [n], []);
    MiddleDownwards(base + [dummy] + sigs + [m], keys, [n]);
    MiddleDownwards(base + [dummy] + sigs, [m], keys + [n]);
    MiddleDownwards(base + [dummy], sigs, [m] + keys + [n]);
  }

  /** And nothing else is: whatever stack is read was pushed like that, by a script that counts right. */
  lemma ReadWasPushed(stack: seq<Bytes>)
    returns (base: seq<Bytes>, dummy: Bytes, sigs: seq<Bytes>, m: Bytes, keys: seq<Bytes>, n: Bytes)
    requires ParseOperands(stack).Read?
    ensures stack == Pushed(base, dummy, sigs, m, keys, n)
    ensures DecodingOf(m) == Value(|sigs|) && DecodingOf(n) == Value(|keys|) && |sigs| <= |keys| < 20
    ensures ParseOperands(stack).operands == Operands(Reversed(keys), Reversed(sigs))
  {
    var top := |stack| - 1;
    n := stack[top];
    var k: nat := DecodingOf(n).v;
    m := stack[top - 1 - k];
    var c: nat := DecodingOf(m).v;
    keys := stack[top - k..top];
    sigs := stack[top - 1 - k - c..top - 1 - k];
    dummy := stack[top - 2 - k - c];
    base := stack[..top - 2 - k - c];
    assert stack == Pushed(base, dummy, sigs, m, keys, n);
    PushedIsRead(base, dummy, sigs, m, keys, n);
  }

  /** A count that cannot be decoded is the one on top, or the second where a usable first one says it is. */
  lemma UndecodableIff(stack: seq<Bytes>, why: Decoding)
    ensures ParseOperands(stack) == Undecodable(why) <==>
            (!why.Value? && |stack| >= 1 && (
              || DecodingOf(stack[|stack| - 1]) == why
              || exists k: nat :: k < 20 && |stack| >= 2 + k
                   && DecodingOf(stack[|stack| - 1]) == Value(k) && DecodingOf(stack[|stack| - 2 - k]) == why))
  {
  }

  /** Regrouped so that each part stands alone between what is below and what is above. */
  lemma PushedParts(base: seq<Bytes>, dummy: Bytes, sigs: seq<Bytes>, m: Bytes, keys: seq<Bytes>, n: Bytes)
    ensures var stack := Pushed(base, dummy, sigs, m, keys, n);
            && stack == base + [dummy] + sigs + [m] + keys + [n] + []
            && stack == base + [dummy] + sigs + [m] + (keys + [n])
            && stack == base + [dummy] + sigs + ([m] + keys + [n])
            && stack[..|base|] == base
  {
    var stack := Pushed(base, dummy, sigs, m, keys, n);
    assert stack == base + [dummy] + sigs + [m] + (keys + [n]);
    assert stack == base + [dummy] + sigs + ([m] + (keys + [n]));
    assert [m] + (keys + [n]) == [m] + keys + [n];
  }

  lemma MiddleDownwards(below: seq<Bytes>, s: seq<Bytes>, above: seq<Bytes>)
    ensures Downwards(below + s + above, |above| + 1, |s|) == Reversed(s)
    ensures s != [] ==> FromTop(below + s + above, |above| + 1) == s[|s| - 1]
  {
    var d, r := Downwards(below + s + above, |above| + 1, |s|), Reversed(s);
    forall j | 0 <= j < |s| ensures d[j] == r[j] {
      MiddleItem(below, s, above, j);
    }
    if s != [] {
      MiddleItem(below, s, above, 0);
    }
  }

  lemma MiddleItem(below: seq<Bytes>, s: seq<Bytes>, above: seq<Bytes>, j: nat)
    requires j < |s|
    ensures FromTop(below + s + above, |above| + 1 + j) == s[|s| - 1 - j]
  {
    var k := |s| - 1 - j;
    assert (below + s + above)[|below| + k] == (below + s)[|below| + k] == s[k];
  }

  class ScriptVM {
    const check: SignatureChecker
    var stack: seq<Bytes>
    var errcode: ErrorCode

    constructor (check: SignatureChecker)
      ensures this.check == check && stack == [] && errcode == OK
    {
      this.check, stack, errcode := check, [], OK;
    }

    /**
     * Items from position `index` on: downwards from the top for a negative one, upwards from the
     * bottom for another. Nothing if the stack does not reach that far and one item further.
     */
    method GetValues(index: int, count: int) returns (ok: bool, vals: seq<Bytes>)
      ensures ok <==> if index < 0 then -index <= |stack| && count - index <= |stack|
                      else index < |stack| && index + count < |stack|
      ensures ok ==> vals == if count <= 0 then [] else if index < 0 then Downwards(stack, -index, count)
                             else stack[index..index + count]
    {
      vals := [];
      if index < -|stack| || index >= |stack| {
        return false, vals;
      }
      if index < 0 && index - count < -|stack| {
        return false, vals;
      }
      if index >= 0 && index + count >= |stack| {
        return false, vals;
      }
      var i := 0;
      while i < count
        invariant i == 0 || 0 < i <= count
        invariant vals == if index < 0 then Downwards(stack, -index, i) else stack[index..index + i]
      {
        vals := vals + [if index >= 0 then stack[index + i] else stack[|stack| + index - i]];
        i := i + 1;
      }
      ok := true;
    }

    method Pop(n: nat)
      requires n <= |stack|
      modifies this`stack
      ensures stack == old(stack)[..|old(stack)| - n]
    {
      for i := 0 to n
        invariant stack == old(stack)[..|old(stack)| - i]
      {
        stack := stack[..|stack| - 1];
      }
    }

    /** The opcode itself. */
    method ScriptCheckMultiSig(verify: bool)
      requires errcode == OK
      modifies this
      ensures var p := ParseOperands(old(stack));
              && (!p.Read? ==> stack == old(stack) && errcode == ErrorOf(p))
              && (p.Read? ==>
                    var rest := old(stack)[..|old(stack)| - p.operands.Depth()];
                    var passed := Matchable(check, p.operands.sigs, p.operands.keys);
                    && stack == rest + (if !passed then [FALSE] else if verify then [] else [TRUE])
                    && errcode == if passed || !verify then OK else CheckMultiSigVerify)
    {
      var p := ReadOperands();
      if !p.Read? {
        errcode := ErrorOf(p);
        return;
      }
      CheckAndPop(p.operands.keys, p.operands.sigs, verify);
    }

    /** The beginning of it: the counts and the items they announce. */
    method ReadOperands() returns (p: Parsed)
      ensures p == ParseOperands(stack)
      ensures p.Read? ==> |stack| >= p.operands.Depth()
    {
      if |stack| < 1 {
        return Invalid;
      }
      var keyCount := DecodeScriptNumber(FromTop(stack, 1));
      if !keyCount.Value? {
        return Undecodable(keyCount);
      }
      if !(keyCount.v >= 0 && keyCount.v < MAX_PUBKEYS_PER_MULTISIG) || |stack| < 2 + keyCount.v {
        return Invalid;
      }
      var sigCount := DecodeScriptNumber(FromTop(stack, 2 + keyCount.v));
      if !sigCount.Value? {
        return Undecodable(sigCount);
      }
      if !(sigCount.v >= 0 && sigCount.v <= keyCount.v) {
        return Invalid;
      }
      var ok, pubkeys := GetValues(-2, keyCount.v);
      var signatures: seq<Bytes> := [];
      if ok {
        ok, signatures := GetValues(-3 - keyCount.v, sigCount.v);
      }
      if !ok {
        return Invalid;
      }
      return Read(Operands(pubkeys, signatures));
    }

    /** The rest of it, once the operands are read: they go, and the result comes. */
    method CheckAndPop(pubkeys: seq<Bytes>, signatures: seq<Bytes>, verify: bool)
      requires |stack| >= |pubkeys| + |signatures| + 3
      modifies this
      ensures var rest := old(stack)[..|old(stack)| - (|pubkeys| + |signatures| + 3)];
              var passed := Matchable(check, signatures, pubkeys);
              && stack == rest + (if !passed then [FALSE] else if verify then [] else [TRUE])
              && errcode == if passed || !verify then old(errcode) else CheckMultiSigVerify
    {
      var success := CheckMultiSig(check, pubkeys, signatures);
      Pop(2 + |pubkeys| + |signatures|);
      if |stack| >= 1 {
        Pop(1);
      }
      assert stack == old(stack)[..|old(stack)| - (|pubkeys| + |signatures| + 3)];
      Conclude(success, verify);
    }

    /** The result goes on the stack, and off again if it has to be true and is. */
    method Conclude(success: bool, verify: bool)
      modifies this
      ensures stack == old(stack) + if !success then [FALSE] else if verify then [] else [TRUE]
      ensures errcode == if success || !verify then old(errcode) else CheckMultiSigVerify
    {
      ghost var before := stack;
      stack := stack + [if success then TRUE else FALSE];
      if verify {
        Verify(CheckMultiSigVerify);
        assert (before + [TRUE])[..|before|] == before;
      }
    }

    /** Drop a true value; anything else stays and stops the script. */
    method Verify(code: ErrorCode)
      requires stack != []
      modifies this
      ensures Signed(FromTop(old(stack), 1)) != 0 ==> stack == old(stack)[..|old(stack)| - 1] && errcode == old(errcode)
      ensures Signed(FromTop(old(stack), 1)) == 0 ==> stack == old(stack) && errcode == code
    {
      var success := GetBoolValue(FromTop(stack, 1));
      if success {
        Pop(1);
      } else {
        errcode := code;
      }
    }
  }

  /**
   * The opcode on what a script pushes for it: all of it goes, and a boolean comes in its place that
   * says whether the signatures, in order, are signatures of some of the keys, in order.
   */
  method RunPushed(vm: ScriptVM, verify: bool,
                   base: seq<Bytes>, dummy: Bytes, sigs: seq<Bytes>, m: Bytes, keys: seq<Bytes>, n: Bytes)
    requires vm.errcode == OK && vm.stack == Pushed(base, dummy, sigs, m, keys, n)
    requires DecodingOf(m) == Value(|sigs|) && DecodingOf(n) == Value(|keys|) && |sigs| <= |keys| < 20
    modifies vm
    ensures Matchable(vm.check, sigs, keys) ==> vm.errcode == OK && vm.stack == base + if verify then [] else [[0x51]]
    ensures !Matchable(vm.check, sigs, keys) ==> vm.errcode == (if verify then CheckMultiSigVerify else OK) && vm.stack == base + [[]]
  {
    PushedIsRead(base, dummy, sigs, m, keys, n);
    MatchableBackwards(vm.check, sigs, keys);
    vm.ScriptCheckMultiSig(verify);
  }
}
