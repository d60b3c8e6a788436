/** How the environment names and holds the keys: trimming, numbering, and what one index or the current key yields. */
module KeyRotationLaws {
  import opened Wrappers
  import opened KeyRotation

  // --- trimming ---

  predicate IsBlank(c: char) {
    c in {' ', '\t', '\n', '\r', '\U{0B}', '\U{0C}', '\U{1C}', '\U{1D}', '\U{1E}', '\U{1F}'}
  }

  ghost predicate AllBlank(s: string) {
    forall c :: c in s ==> IsBlank(c)
  }

  lemma {:induction false} AllBlankIsEmpty(s: string)
    requires AllBlank(s)
    ensures Strip(s) == ""
  {
    if s == "" {
    } else {
      assert s[0] in s;
      AllBlankIsEmpty(s[1..]);
    }
  }

  /** Trimming takes away the blanks at both ends and nothing else. */
  lemma {:induction false} StripTrims(before: string, text: string, after: string)
    requires AllBlank(before) && AllBlank(after)
    requires text != "" && !IsBlank(text[0]) && !IsBlank(text[|text| - 1])
    ensures Strip(before + text + after) == text
    decreases |before| + |after|
  {
    var s := before + text + after;
    if before != "" {
      assert before[0] in before;
      StripTrims(before[1..], text, after);
      assert s[1..] == before[1..] + text + after;
    } else if after != "" {
      assert after[|after| - 1] in after;
      StripTrims(before, text, after[..|after| - 1]);
      assert s[..|s| - 1] == before + text + after[..|after| - 1];
    } else {
      assert s == text;
    }
  }

  // --- numbering ---

  function ReadDecimal(s: string): int {
    if s == "" then 0 else 10 * ReadDecimal(s[..|s| - 1]) + (s[|s| - 1] as int - '0' as int)
  }

  /** An index is written in decimal digits, without leading zeros, that read back as it. */
  lemma {:induction false} IndicesReadBack(n: nat)
    ensures Decimal(n) != "" && ReadDecimal(Decimal(n)) == n
    ensures forall c :: c in Decimal(n) ==> '0' <= c <= '9'
    ensures n > 0 ==> Decimal(n)[0] != '0'
  {
    if n < 10 {
      assert Decimal(n)[..0] == "";
    } else {
      IndicesReadBack(n / 10);
      assert Decimal(n)[..|Decimal(n)| - 1] == Decimal(n / 10);
    }
  }

  // --- variables ---

  function Text(env: Environment, name: string): string {
    if name in env then Strip(env[name]) else ""
  }

  /** The scan stops at an index with neither PEM. Elsewhere the private PEM decides if it is set, otherwise the
      public one: what it loads is in the pool under the id beside it, or under its fingerprint for want of one, and
      what does not load is skipped. */
  lemma {:induction false} IndexYields(env: Environment, loader: Loader, i: nat)
    ensures var priv := Text(env, "RSA_OLD_PRIVATE_KEY_PEM_" + Decimal(i));
            var pub := Text(env, "RSA_OLD_PUBLIC_KEY_PEM_" + Decimal(i));
            var kid := Text(env, "RSA_OLD_KEY_ID_" + Decimal(i));
            && (MissingAt(env, i) <==> priv == "" && pub == "")
            && (!MissingAt(env, i) ==>
                  var pair := if priv == "" then loader.publicPem(pub) else loader.privatePem(priv);
                  if pair.None? then RetiredAt(env, loader, i) == []
                  else
                    && |RetiredAt(env, loader, i)| == 1
                    && var key := RetiredAt(env, loader, i)[0];
                       && key.pair == pair.value && (key.hasPrivate <==> priv != "")
                       && (key.keyId == kid || (kid == "" && key.keyId == loader.fingerprint(key.pair)))
                       && (key.keyId == "" ==> loader.fingerprint(key.pair) == ""))
  {
  }

  /** The current key is the private one of its own variable; without it, or if it does not load, there is no pool. */
  lemma {:induction false} CurrentKeyYields(env: Environment, loader: Loader)
    ensures var pem, kid := Text(env, "RSA_PRIVATE_KEY_PEM"), Text(env, "RSA_KEY_ID");
            CurrentKey(env, loader) ==
            if pem == "" then Failure(CurrentKeyNotSet)
            else if loader.privatePem(pem).None? then Failure(CurrentKeyMalformed)
            else
              var pair := loader.privatePem(pem).value;
              Success(KeyStore(if kid == "" then loader.fingerprint(pair) else kid, pair, true))
  {
  }

  /** The pool read position by position: the current key, then the keys of the indices before the gap, lower indices
      first. */
  lemma {:induction false} PoolInOrder(env: Environment, loader: Loader, gap: nat, i: nat, j: nat)
    requires CurrentKey(env, loader).Success? && 1 <= i < j < gap
    requires |RetiredAt(env, loader, i)| == 1 && |RetiredAt(env, loader, j)| == 1
    ensures var pool := Pool(env, loader, gap);
            && pool != [] && pool[0] == CurrentKey(env, loader).value
            && exists a, b :: 0 < a < b < |pool|
                              && pool[a] == RetiredAt(env, loader, i)[0] && pool[b] == RetiredAt(env, loader, j)[0]
  {
    InPoolAt(env, loader, gap, i);
    InPoolAt(env, loader, gap, j);
    PoolPrefix(env, loader, i + 1, j);
    var a, b := |Pool(env, loader, i)|, |Pool(env, loader, j)|;
    assert Pool(env, loader, gap)[a] == RetiredAt(env, loader, i)[0];
    assert Pool(env, loader, gap)[b] == RetiredAt(env, loader, j)[0];
  }
}
