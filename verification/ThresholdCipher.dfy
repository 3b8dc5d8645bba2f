/**
 Threshold encryption of payloads: a fresh key seals the text, shares of the key are sealed
 to the nodes. Key and coefficients are inputs where the program draws them at random.
 */
module ThresholdCipher {
  import opened Lists
  import opened Options
  import opened Gf256
  import opened Polynomials
  import opened Shamir
  import opened Payloads

  // Parameters.

  datatype Params = Params(t: nat, pubkeys: seq<Key>)

  /** The known keys, each once, in order of first appearance. */
  function Distinctly(keys: seq<Key>): (r: seq<Key>)
    ensures forall k :: k in r <==> k in keys
    ensures forall i, j :: 0 <= i < j < |r| ==> r[i] != r[j]
  {
    if |keys| == 0 then []
    else
      var rest := Distinctly(keys[..|keys| - 1]);
      if keys[|keys| - 1] in rest then rest else rest + [keys[|keys| - 1]]
  }

  function HalfRoundedUp(n: nat): nat { (n + 1) / 2 }

  /** Half of the nodes whose keys are known, rounded up, when there are at least three. */
  function ThresholdParams(own: Option<Key>, peerKeys: seq<Key>): Option<Params> {
    if own.None? then None
    else
      var all := Distinctly([own.value] + peerKeys);
      if |all| < 3 then None else Some(Params(HalfRoundedUp(|all|), all))
  }

  /** The threshold is exactly half of an even number of keys, and a majority of an odd one. */
  lemma ThresholdIsHalf(own: Option<Key>, peerKeys: seq<Key>)
    requires ThresholdParams(own, peerKeys).Some?
    ensures var p := ThresholdParams(own, peerKeys).value;
      && 2 <= p.t <= |p.pubkeys| && |p.pubkeys| <= 2 * p.t <= |p.pubkeys| + 1
      && own.Some? && own.value in p.pubkeys
      && (forall k :: k in p.pubkeys <==> k == own.value || k in peerKeys)
      && (2 * p.t > |p.pubkeys| <==> |p.pubkeys| % 2 == 1)
      && p.t == HalfRoundedUp(|p.pubkeys|) && NoRepeats(p.pubkeys)
  {}

  lemma ThreeMembers(all: seq<Key>, a: Key, b: Key, c: Key)
    requires a in all && b in all && c in all && a != b && b != c && a != c
    ensures |all| >= 3
  {
    var i :| 0 <= i < |all| && all[i] == a;
    var j :| 0 <= j < |all| && all[j] == b;
    var k :| 0 <= k < |all| && all[k] == c;
  }

  /** Payloads are sealed to shares exactly when the node has a key and knows two others, different from it and from each other. */
  lemma ThreeKeysExactly(own: Option<Key>, peerKeys: seq<Key>)
    ensures ThresholdParams(own, peerKeys).Some? <==>
      own.Some? && exists a, b :: a in peerKeys && b in peerKeys && a != b && a != own.value && b != own.value
  {
    if own.Some? {
      hide Distinctly;
      var all := Distinctly([own.value] + peerKeys);
      assert own.value in all;
      if a, b :| a in peerKeys && b in peerKeys && a != b && a != own.value && b != own.value {
        ThreeMembers(all, own.value, a, b);
      }
      if |all| >= 3 {
        var a, b := if all[0] == own.value then all[1] else all[0], if all[2] == own.value then all[1] else all[2];
        assert all[0] in all && all[1] in all && all[2] in all;
        assert a in peerKeys && b in peerKeys && a != b;
      }
    }
  }

  // Encryption.

  /** The payload sealed to these keys. */
  ghost predicate SealsTo(payload: Payload, pubkeys: seq<Key>, text: string, t: nat, key: seq<Byte>, random: seq<seq<Byte>>)
    requires |random| == |key|
  {
    && payload.Threshold?
    && payload.blob.t == t && payload.blob.n == |pubkeys|
    && payload.blob.ciphertext == Ciphertext(key, text)
    && |payload.blob.shares| == |pubkeys|
    && forall i :: 0 <= i < |pubkeys| ==>
         payload.blob.shares[i] == SealedShare(i + 1, pubkeys[i], ShareBytes(key, random, i + 1))
  }

  method Encrypt(pubkeys: seq<Key>, text: string, t: nat, key: seq<Byte>, random: seq<seq<Byte>>)
    returns (payload: Payload)
    requires CoefficientsFor(random, |key|, t)
    ensures SealsTo(payload, pubkeys, text, t, key, random)
  {
    hide ShareBytes;
    var shares := ShamirSplit(key, |pubkeys|, t, random);
    var sealed: seq<SealedShare> := [];
    for i := 0 to |pubkeys|
      invariant |sealed| == i
      invariant forall k :: 0 <= k < i ==> sealed[k] == SealedShare(k + 1, pubkeys[k], ShareBytes(key, random, k + 1))
    {
      sealed := sealed + [SealedShare(shares[i].x, pubkeys[i], shares[i].y)];
    }
    payload := Threshold(Blob(t, |pubkeys|, Ciphertext(key, text), sealed));
  }

  /** The first share sealed to a key, from position i on. */
  function FindShare(shares: seq<SealedShare>, own: Key, i: nat): Option<Share>
    requires i <= |shares|
    decreases |shares| - i
  {
    if i == |shares| then None
    else if shares[i].nodePubkey == own then Some(Share(shares[i].x, shares[i].bytes))
    else FindShare(shares, own, i + 1)
  }

  function OwnShare(payload: Payload, own: Option<Key>): Option<Share> {
    if own.None? || !payload.Threshold? then None else FindShare(payload.blob.shares, own.value, 0)
  }

  method DecryptOwnShare(payload: Payload, own: Option<Key>) returns (r: Option<Share>)
    ensures r == OwnShare(payload, own)
    ensures own.Some? && payload.Threshold? ==>
      var shares := payload.blob.shares;
      if exists i :: 0 <= i < |shares| && shares[i].nodePubkey == own.value
      then exists i :: 0 <= i < |shares| && shares[i].nodePubkey == own.value && r == Some(Share(shares[i].x, shares[i].bytes))
                       && forall k :: 0 <= k < i ==> shares[k].nodePubkey != own.value
      else r == None
    ensures own.None? || !payload.Threshold? ==> r == None
  {
    if own.None? || !payload.Threshold? {
      return None;
    }
    var shares := payload.blob.shares;
    for i := 0 to |shares|
      invariant FindShare(shares, own.value, 0) == FindShare(shares, own.value, i)
      invariant forall k :: 0 <= k < i ==> shares[k].nodePubkey != own.value
    {
      if shares[i].nodePubkey != own.value {
        continue;
      }
      return Some(Share(shares[i].x, shares[i].bytes));
    }
    r := None;
  }

  /** The text, if the shares give the right key; None where the program raises. */
  ghost function Opened(payload: Payload, shares: seq<Share>): Option<string> {
    if payload.Threshold? && CanRecombine(shares) && Recombine(shares) == payload.blob.ciphertext.key
    then Some(payload.blob.ciphertext.plaintext)
    else None
  }

  method ReconstructAndDecrypt(payload: Payload, shares: seq<Share>) returns (r: Option<string>)
    ensures r == Opened(payload, shares)
  {
    hide Recombine, CanRecombine;
    if !payload.Threshold? {
      return None;
    }
    var key := ShamirReconstruct(shares);
    if key.Secret? && key.bytes == payload.blob.ciphertext.key {
      r := Some(payload.blob.ciphertext.plaintext);
    } else {
      r := None;
    }
  }

  // What encryption promises.

  lemma {:induction false} FoundShareIsSealed(shares: seq<SealedShare>, own: Key, i: nat)
    requires i <= |shares|
    ensures FindShare(shares, own, i).None? <==> forall k :: i <= k < |shares| ==> shares[k].nodePubkey != own
    ensures FindShare(shares, own, i).Some? ==>
      exists k :: i <= k < |shares| && shares[k].nodePubkey == own
        && FindShare(shares, own, i).value == Share(shares[k].x, shares[k].bytes)
    decreases |shares| - i
  {
    if i < |shares| && shares[i].nodePubkey != own {
      FoundShareIsSealed(shares, own, i + 1);
    }
  }

  /** Exactly the nodes whose keys were used find a share, and it is one of the shares of the key. */
  lemma OwnShareIsGenuine(payload: Payload, pubkeys: seq<Key>, text: string, t: nat, key: seq<Byte>, random: seq<seq<Byte>>, own: Key)
    requires |random| == |key| && SealsTo(payload, pubkeys, text, t, key, random)
    ensures OwnShare(payload, Some(own)).Some? <==> own in pubkeys
    ensures OwnShare(payload, Some(own)).Some? ==> OwnShare(payload, Some(own)).value in Split(key, random, |pubkeys|)
  {
    hide ShareBytes;
    var shares := payload.blob.shares;
    FoundShareIsSealed(shares, own, 0);
    if OwnShare(payload, Some(own)).Some? {
      var k :| 0 <= k < |shares| && shares[k].nodePubkey == own
        && FindShare(shares, own, 0).value == Share(shares[k].x, shares[k].bytes);
      assert Split(key, random, |pubkeys|)[k] == OwnShare(payload, Some(own)).value;
    }
    if own in pubkeys {
      var k :| 0 <= k < |pubkeys| && pubkeys[k] == own;
      assert shares[k].nodePubkey == own;
    }
  }

  /** Ideal encryption: whatever the shares, the payload opens to its text or not at all. */
  lemma OpensOnlyToText(payload: Payload, pubkeys: seq<Key>, text: string, t: nat, key: seq<Byte>, random: seq<seq<Byte>>, shares: seq<Share>)
    requires |random| == |key| && SealsTo(payload, pubkeys, text, t, key, random)
    ensures Opened(payload, shares) in {None, Some(text)}
  {}

  /** t different genuine shares open the payload; with more than 256 keys, if their labels differ modulo 256. */
  lemma EnoughGenuineSharesOpen(payload: Payload, pubkeys: seq<Key>, text: string, t: nat, key: seq<Byte>, random: seq<seq<Byte>>, shares: seq<Share>)
    requires 1 <= t <= |pubkeys| && CoefficientsFor(random, |key|, t)
    requires SealsTo(payload, pubkeys, text, t, key, random)
    requires |shares| >= t && DifferentLabels(shares) && FromSplit(shares, key, random, |pubkeys|)
    requires |pubkeys| <= 256 || Distinct(Labels(shares))
    ensures Opened(payload, shares) == Some(text)
  {
    hide ShareBytes, Recombine, CanRecombine, FromSplit, Labels;
    AnyEnoughSharesRecover(key, random, |pubkeys|, t, shares);
  }
}
