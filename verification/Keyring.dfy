/** KeyringStorage: a secret split over keyring entries, each but the last ending in a marker. */
module Keyring {
  import opened Options

  const MARKER := "<MORE>"

  /** The entries of the keyring by number. */
  type Entries = map<nat, string>

  predicate EndsWithMarker(s: string) {
    |s| >= |MARKER| && s[|s| - |MARKER|..] == MARKER
  }

  function WithoutMarker(s: string): string
    requires EndsWithMarker(s)
  {
    s[..|s| - |MARKER|]
  }

  function Prepend(s: string, r: Option<string>): Option<string> {
    match r
    case None => None
    case Some(t) => Some(s + t)
  }

  /** Entries from number i on; finitely many, which is why reading ends. */
  ghost function Above(es: Entries, i: nat): set<nat> {
    set k | k in es && k >= i
  }

  /** What read() assembles from entry i on; None when an entry is missing. */
  ghost function ReadFrom(es: Entries, i: nat): Option<string>
    decreases Above(es, i)
  {
    if i !in es then None
    else if EndsWithMarker(es[i]) then
      assert i in Above(es, i) && i !in Above(es, i + 1);
      Prepend(WithoutMarker(es[i]), ReadFrom(es, i + 1))
    else Some(es[i])
  }

  /** What store() leaves behind when it writes `rest` from entry k on. */
  function StoreFrom(es: Entries, k: nat, rest: string, step: nat): Entries
    requires step > 0
    decreases |rest|
  {
    if rest == "" then es
    else if step <= |rest| then StoreFrom(es[k := rest[..step] + MARKER], k + 1, rest[step..], step)
    else es[k := rest]
  }

  /** The part of the secret that does not fill a whole entry. */
  function Tail(s: string, step: nat): (tail: string)
    requires step > 0
    ensures |tail| <= |s|
    decreases |s|
  {
    if |s| < step then s else Tail(s[step..], step)
  }

  function Full(s: string, step: nat): nat
    requires step > 0
    decreases |s|
  {
    if |s| < step then 0 else 1 + Full(s[step..], step)
  }

  /** The recursive definitions are division with remainder. */
  lemma {:induction false} TailIsRemainder(s: string, step: nat)
    requires step > 0
    ensures Full(s, step) * step + |Tail(s, step)| == |s| && |Tail(s, step)| < step
    ensures Tail(s, step) == s[|s| - |Tail(s, step)|..]
    decreases |s|
  {
    if |s| >= step {
      TailIsRemainder(s[step..], step);
    }
  }

  lemma {:induction false} StoreKeepsBelow(es: Entries, k: nat, rest: string, step: nat, i: nat)
    requires step > 0 && i < k
    ensures i in StoreFrom(es, k, rest, step) <==> i in es
    ensures i in es ==> StoreFrom(es, k, rest, step)[i] == es[i]
    decreases |rest|
  {
    if rest != "" && step <= |rest| {
      StoreKeepsBelow(es[k := rest[..step] + MARKER], k + 1, rest[step..], step, i);
    }
  }

  /** What is stored behind k: the full parts with the marker, the rest without, and nothing else changes. */
  lemma {:induction false} StoreExactly(es: Entries, k: nat, s: string, step: nat, j: nat)
    requires step > 0
    ensures var es', i := StoreFrom(es, k, s, step), k + j;
      && (j < Full(s, step) ==>
            0 <= j * step && j * step + step <= |s| && i in es' && es'[i] == s[j * step..j * step + step] + "<MORE>")
      && (j == Full(s, step) && Tail(s, step) != "" ==> i in es' && es'[i] == Tail(s, step))
      && (j > Full(s, step) || (j == Full(s, step) && Tail(s, step) == "") ==>
            (i in es' <==> i in es) && (i in es ==> es'[i] == es[i]))
    decreases |s|
  {
    if |s| >= step {
      var es1, rest := es[k := s[..step] + MARKER], s[step..];
      if j == 0 {
        StoreKeepsBelow(es1, k + 1, rest, step, k);
      } else {
        StoreExactly(es1, k + 1, rest, step, j - 1);
        assert j * step == (j - 1) * step + step;
        if j < Full(s, step) {
          var a := (j - 1) * step;
          assert rest[a..a + step] == s[a + step..a + step + step];
        }
      }
    }
  }

  /** Reading from i on depends on nothing below i. */
  lemma {:induction false} ReadDependsAbove(es: Entries, es': Entries, i: nat)
    requires forall k :: k >= i ==> (k in es <==> k in es') && (k in es ==> es[k] == es'[k])
    ensures ReadFrom(es, i) == ReadFrom(es', i)
    decreases Above(es, i)
  {
    if i in es && EndsWithMarker(es[i]) {
      assert i in Above(es, i) && i !in Above(es, i + 1);
      ReadDependsAbove(es, es', i + 1);
    }
  }

  lemma MarkerStrips(part: string)
    ensures EndsWithMarker(part + MARKER) && WithoutMarker(part + MARKER) == part
  {
  }

  /**
   * What read() returns after store(), whatever stale entries there were: the secret when its last
   * part is non-empty and does not end in the marker; otherwise read() goes on into the entries
   * behind the stored ones.
   */
  ghost function Recovered(es: Entries, k: nat, s: string, step: nat): Option<string>
    requires step > 0
  {
    var next, tail := k + Full(s, step), Tail(s, step);
    if tail == "" then Prepend(s, ReadFrom(es, next))
    else if EndsWithMarker(tail) then Prepend(s[..|s| - |MARKER|], ReadFrom(es, next + 1))
    else Some(s)
  }

  lemma {:induction false} ReadAfterStore(es: Entries, k: nat, s: string, step: nat)
    requires step > 0
    ensures ReadFrom(StoreFrom(es, k, s, step), k) == Recovered(es, k, s, step)
    decreases |s|
  {
    hide Recovered;
    if s == "" {
      NothingStored(es, k, step);
    } else if |s| < step {
      ReadOne(es, k, s);
      OnePart(es, k, s, step);
    } else {
      var es1, part, rest := es[k := s[..step] + MARKER], s[..step], s[step..];
      MarkerStrips(part);
      StoreKeepsBelow(es1, k + 1, rest, step, k);
      ReadAfterStore(es1, k + 1, rest, step);
      OneMorePart(es, es1, k, s, step);
    }
  }

  lemma NothingStored(es: Entries, k: nat, step: nat)
    requires step > 0
    ensures Recovered(es, k, "", step) == ReadFrom(es, k)
  {
    match ReadFrom(es, k)
    case None =>
    case Some(t) => assert "" + t == t;
  }

  lemma OnePart(es: Entries, k: nat, s: string, step: nat)
    requires 0 < |s| < step
    ensures Recovered(es, k, s, step) ==
      if EndsWithMarker(s) then Prepend(WithoutMarker(s), ReadFrom(es, k + 1)) else Some(s)
  {
  }

  /** A full entry in front contributes its part. */
  lemma OneMorePart(es: Entries, es1: Entries, k: nat, s: string, step: nat)
    requires 0 < step <= |s| && es1 == es[k := s[..step] + MARKER]
    ensures Recovered(es, k, s, step) == Prepend(s[..step], Recovered(es1, k + 1, s[step..], step))
  {
    hide ReadFrom, EndsWithMarker;
    var part, rest := s[..step], s[step..];
    var next, tail := k + Full(s, step), Tail(s, step);
    assert part + rest == s;
    if tail == "" {
      ReadDependsAbove(es, es1, next);
      PrependTwice(part, rest, ReadFrom(es, next));
    } else if EndsWithMarker(tail) {
      MarkerFits(tail);
      ReadDependsAbove(es, es1, next + 1);
      assert part + rest[..|rest| - |MARKER|] == s[..|s| - |MARKER|];
      PrependTwice(part, rest[..|rest| - |MARKER|], ReadFrom(es, next + 1));
    }
  }

  lemma MarkerFits(s: string)
    requires EndsWithMarker(s)
    ensures |MARKER| <= |s|
  {
  }

  lemma ReadOne(es: Entries, k: nat, s: string)
    requires s != ""
    ensures ReadFrom(es[k := s], k) ==
      if EndsWithMarker(s) then Prepend(WithoutMarker(s), ReadFrom(es, k + 1)) else Some(s)
  {
    ReadDependsAbove(es, es[k := s], k + 1);
  }

  lemma PrependTwice(a: string, b: string, r: Option<string>)
    ensures Prepend(a, Prepend(b, r)) == Prepend(a + b, r)
  {
    match r
    case None =>
    case Some(t) => assert a + (b + t) == a + b + t;
  }

  /** The round trip succeeds if and only if the entries read are exactly the ones that spell the secret. */
  lemma RoundTripExactly(es: Entries, s: string, step: nat)
    requires step > 0
    ensures ReadFrom(StoreFrom(es, 0, s, step), 0) == Some(s) <==>
      if Tail(s, step) == "" then ReadFrom(es, Full(s, step)) == Some("")
      else if EndsWithMarker(Tail(s, step)) then ReadFrom(es, Full(s, step) + 1) == Some(MARKER)
      else true
  {
    hide ReadFrom, StoreFrom, EndsWithMarker, Prepend;
    ReadAfterStore(es, 0, s, step);
    TailIsRemainder(s, step);
    var tail := Tail(s, step);
    if tail == "" {
      assert s + "" == s;
      PrependIs(s, ReadFrom(es, Full(s, step)), "");
    } else if EndsWithMarker(tail) {
      TailMarker(s, tail);
      PrependIs(s[..|s| - |MARKER|], ReadFrom(es, Full(s, step) + 1), MARKER);
    }
  }

  lemma PrependIs(a: string, r: Option<string>, b: string)
    ensures Prepend(a, r) == Some(a + b) <==> r == Some(b)
  {
    if r.Some? {
      assert (a + r.value)[|a|..] == r.value && (a + b)[|a|..] == b;
    }
  }

  lemma TailMarker(s: string, tail: string)
    requires |tail| <= |s| && tail == s[|s| - |tail|..] && EndsWithMarker(tail)
    ensures |MARKER| <= |s| && s == s[..|s| - |MARKER|] + MARKER
  {
    assert s[|s| - |MARKER|..] == tail[|tail| - |MARKER|..];
  }

  /**
   * With nothing stale in the keyring the round trip works exactly when the secret does not fill its
   * last entry and that entry does not end in the marker; in particular never for an exact multiple.
   */
  lemma FreshRoundTripExactly(s: string, step: nat)
    requires step > 0
    ensures ReadFrom(StoreFrom(map[], 0, s, step), 0) == Some(s) <==>
      Tail(s, step) != "" && !EndsWithMarker(Tail(s, step))
    ensures Tail(s, step) == "" ==> ReadFrom(StoreFrom(map[], 0, s, step), 0) == None
  {
    RoundTripExactly(map[], s, step);
    ReadAfterStore(map[], 0, s, step);
  }

  /** No entry written by store() exceeds the limit. */
  lemma {:induction false} EntriesFit(es: Entries, k: nat, s: string, limit: nat, i: nat)
    requires limit > |MARKER| && k <= i
    ensures var es' := StoreFrom(es, k, s, limit - |MARKER|);
      i in es' && !(i in es && es'[i] == es[i]) ==> |es'[i]| <= limit
    decreases |s|
  {
    var step := limit - |MARKER|;
    if s != "" && step <= |s| {
      var es1 := es[k := s[..step] + MARKER];
      if i == k {
        StoreKeepsBelow(es1, k + 1, s[step..], step, k);
      } else {
        EntriesFit(es1, k + 1, s[step..], limit, i);
      }
    }
  }

  class KeyringStorage {
    var entries: Entries

    constructor (entries: Entries)
      ensures this.entries == entries
    {
      this.entries := entries;
    }

    method Read() returns (r: Option<string>)
      ensures r == ReadFrom(entries, 0)
    {
      var str, i := "", 0;
      ghost var target := ReadFrom(entries, 0);
      assert target.Some? ==> "" + target.value == target.value;
      while true
        invariant Prepend(str, ReadFrom(entries, i)) == target
        decreases Above(entries, i)
      {
        if i !in entries {
          return None;
        }
        var chunk := entries[i];
        assert i in Above(entries, i) && i !in Above(entries, i + 1);
        if EndsWithMarker(chunk) {
          PrependTwice(str, WithoutMarker(chunk), ReadFrom(entries, i + 1));
          str := str + chunk[..|chunk| - |MARKER|];
          i := i + 1;
        } else {
          return Some(str + chunk);
        }
      }
    }

    method Store(sealed: string, limit: nat)
      requires limit > |MARKER|
      modifies this
      ensures entries == StoreFrom(old(entries), 0, sealed, limit - |MARKER|)
    {
      var step := limit - |MARKER|;
      var i, k := 0, 0;
      ghost var target := StoreFrom(entries, 0, sealed, step);
      assert sealed[0..] == sealed;
      while i < |sealed|
        invariant 0 <= i
        invariant StoreFrom(entries, k, if i <= |sealed| then sealed[i..] else "", step) == target
      {
        var cutoff := i + step;
        if cutoff <= |sealed| {
          assert sealed[i..][..step] == sealed[i..cutoff] && sealed[i..][step..] == sealed[cutoff..];
          entries := entries[k := sealed[i..cutoff] + MARKER];
        } else {
          entries := entries[k := sealed[i..]];
        }
        i, k := cutoff, k + 1;
      }
    }
  }
}
