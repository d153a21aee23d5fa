/**
 * Round-robin API-key rotation (`APIKeyManager`), as a sequential state
 * machine: the state is the key list and the index of the next key. The lock
 * that serialises calls in the source only matters under concurrency and is
 * not modelled; every call here is one whole critical section.
 */
module ApiManager {
  import opened Base

  datatype APIKeyManager = APIKeyManager(apiKeys: seq<string>, currentIndex: nat)

  /** `__init__`: keep the list, start at the first key. */
  function NewAPIKeyManager(apiKeys: seq<string>): (m: APIKeyManager)
    ensures m.apiKeys == apiKeys && m.currentIndex == 0
    ensures Valid(m)
  {
    APIKeyManager(apiKeys, 0)
  }

  /** The index designates a key, or the list is empty and the index is still the initial 0. */
  predicate Valid(m: APIKeyManager)
  {
    m.currentIndex < |m.apiKeys| || (m.apiKeys == [] && m.currentIndex == 0)
  }

  /**
   * `get_next_key`: return the key at the current index and advance the index
   * by one modulo the number of keys. Indexing an empty list raises
   * `IndexError` before the modulo is reached, and leaves the state as it was.
   */
  function GetNextKey(m: APIKeyManager): (r: Result<(string, APIKeyManager)>)
    ensures m.currentIndex >= |m.apiKeys| ==> r == Err(IndexError)
    ensures m.currentIndex < |m.apiKeys| ==> r.Ok?
    ensures r.Ok? ==> && r.value.0 == m.apiKeys[m.currentIndex]
                      && r.value.1.apiKeys == m.apiKeys
                      && r.value.1.currentIndex == (m.currentIndex + 1) % |m.apiKeys|
                      && r.value.1.currentIndex < |m.apiKeys|
    ensures Valid(m) && m.apiKeys != [] ==> r.Ok? && Valid(r.value.1)
  {
    if m.currentIndex < |m.apiKeys| then
      Ok((m.apiKeys[m.currentIndex], m.(currentIndex := (m.currentIndex + 1) % |m.apiKeys|)))
    else Err(IndexError)
  }

  /** A non-zero multiple of `n` is at least `n` away from zero. */
  lemma MulSign(a: int, n: int)
    requires n > 0
    ensures a >= 1 ==> a * n >= n
    ensures a <= -1 ==> a * n <= -n
  {
  }

  /** `x % n` is the only remainder `r` in `[0, n)` with `x == q * n + r`. */
  lemma ModUnique(x: int, n: int, q: int, r: int)
    requires n > 0 && 0 <= r < n && x == q * n + r
    ensures x % n == r
  {
    var q', r' := x / n, x % n;
    assert x == q' * n + r';
    assert (q - q') * n == r' - r;
    MulSign(q - q', n);
  }

  /** Reducing the first summand modulo `n` does not change the sum modulo `n`. */
  lemma ModPlus(a: nat, b: nat, n: nat)
    requires n > 0
    ensures (a % n + b) % n == (a + b) % n
  {
    var q := a / n;
    var t := a % n + b;
    var q2 := t / n;
    assert a == q * n + a % n;
    assert t == q2 * n + t % n;
    assert a + b == (q + q2) * n + t % n;
    ModUnique(a + b, n, q + q2, t % n);
  }

  /** The index after one call: the next one, wrapping to 0 past the last. */
  function Next(i: nat, n: nat): (r: nat)
    requires i < n
    ensures r < n
  {
    if i + 1 < n then i + 1 else 0
  }

  /** The source's `(i + 1) % n` is `Next` on every valid index. */
  lemma NextIsIncrementModulo(i: nat, n: nat)
    requires i < n
    ensures Next(i, n) == (i + 1) % n
  {
    if i + 1 < n {
      ModUnique(i + 1, n, 0, i + 1);
    } else {
      ModUnique(i + 1, n, 1, 0);
    }
  }

  /** The index after `j` calls starting from index `i` over `n` keys. */
  function Advance(i: nat, j: nat, n: nat): (r: nat)
    requires i < n
    ensures r < n
    decreases j
  {
    if j == 0 then i else Advance(Next(i, n), j - 1, n)
  }

  /** One step then `j - 1` more lands where `j` steps from `i` would. */
  lemma StepThenAdd(i: nat, j: nat, n: nat)
    requires i < n && j >= 1
    ensures ((i + 1) % n + (j - 1)) % n == (i + j) % n
  {
    ModPlus(i + 1, j - 1, n);
  }

  /** Calling `j` times from a valid index is adding `j` modulo `n`. */
  lemma {:induction false} AdvanceIsAddition(i: nat, j: nat, n: nat)
    requires i < n
    ensures Advance(i, j, n) == (i + j) % n
    decreases j
  {
    if j == 0 {
      ModUnique(i, n, 0, i);
    } else {
      NextIsIncrementModulo(i, n);
      AdvanceIsAddition(Next(i, n), j - 1, n);
      StepThenAdd(i, j, n);
    }
  }

  /**
   * `k` consecutive calls: the keys returned, in order, and the final state;
   * the first failing call's exception otherwise.
   */
  function Calls(m: APIKeyManager, k: nat): (r: Result<(seq<string>, APIKeyManager)>)
    ensures k > 0 && m.apiKeys == [] ==> r == Err(IndexError)
    ensures Valid(m) && m.apiKeys != [] ==>
              && r.Ok?
              && |r.value.0| == k
              && (forall j :: 0 <= j < k ==>
                    r.value.0[j] == m.apiKeys[Advance(m.currentIndex, j, |m.apiKeys|)])
              && r.value.1 == APIKeyManager(m.apiKeys, Advance(m.currentIndex, k, |m.apiKeys|))
    decreases k
  {
    if k == 0 then Ok(([], m))
    else
      var step := GetNextKey(m);
      if step.Err? then Err(step.error)
      else
        NextIsIncrementModulo(m.currentIndex, |m.apiKeys|);
        var rest := Calls(step.value.1, k - 1);
        if rest.Err? then Err(rest.error)
        else
          var out := [step.value.0] + rest.value.0;
          assert forall j :: 0 < j < |out| ==> out[j] == rest.value.0[j - 1];
          Ok((out, rest.value.1))
  }

  /** The `k`-th call (from 0) of a fresh manager over a non-empty list returns `apiKeys[k % |apiKeys|]`. */
  lemma FreshManagerCyclesThroughKeys(apiKeys: seq<string>, k: nat)
    requires apiKeys != []
    ensures Calls(NewAPIKeyManager(apiKeys), k).Ok?
    ensures forall j :: 0 <= j < k ==> Calls(NewAPIKeyManager(apiKeys), k).value.0[j] == apiKeys[j % |apiKeys|]
    ensures Calls(NewAPIKeyManager(apiKeys), k).value.1.currentIndex == k % |apiKeys|
  {
    var n := |apiKeys|;
    var r := Calls(NewAPIKeyManager(apiKeys), k);
    forall j | 0 <= j < k
      ensures r.value.0[j] == apiKeys[j % n]
    {
      AdvanceIsAddition(0, j, n);
    }
    AdvanceIsAddition(0, k, n);
  }

  /** `n` steps over `n` keys come back to the starting index. */
  lemma AdvanceFullRound(i: nat, n: nat)
    requires i < n
    ensures Advance(i, n, n) == i
  {
    AdvanceIsAddition(i, n, n);
    ModUnique(i + n, n, 1, i);
  }

  /** After one call per key the manager is back in the state it started from; the key list never changes. */
  lemma FullRoundRestoresState(m: APIKeyManager)
    requires Valid(m) && m.apiKeys != []
    ensures Calls(m, |m.apiKeys|).Ok? && Calls(m, |m.apiKeys|).value.1 == m
  {
    var n := |m.apiKeys|;
    var r := Calls(m, n);
    assert r.value.1 == APIKeyManager(m.apiKeys, Advance(m.currentIndex, n, n));
    AdvanceFullRound(m.currentIndex, n);
  }

  /** The module-level `CHAT_API_KEYS` list, which ships empty. */
  const ChatApiKeys: seq<string> := []

  /** The global manager built from the shipped list fails on its first call. */
  lemma GlobalManagerFirstCallFails()
    ensures GetNextKey(NewAPIKeyManager(ChatApiKeys)) == Err(IndexError)
  {
  }
}
