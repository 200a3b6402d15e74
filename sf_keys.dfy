/**
 * Credential rotation of the SiliconFlow/Gemini painting plugin: the
 * round-robin cursor over the `sf_keys` records (`get_use_sf_key`) and the
 * modular cursor over the comma-separated Gemini key string (`get_use_ggKey`).
 * Each cursor is plugin-instance state, so each is a class with one field.
 */
module SfKeys {
  import opened Wrappers
  import opened JsStrings

  /** One record of `sf_keys`: the credential and its `isDisable` flag. */
  datatype SfKeyEntry = SfKeyEntry(sfKey: string, isDisable: bool)

  /** An entry the scan stops on. The loop condition is `!use_sf_key`, so an
      enabled record whose key is the empty string does not stop it. */
  predicate Usable(e: SfKeyEntry)
  {
    !e.isDisable && e.sfKey != ""
  }

  /** One move of the cursor over a pool of `len` records. */
  function Step(index: int, len: nat): (next: int)
    ensures index >= -1 && len > 0 ==> 0 <= next < len
  {
    if index < len - 1 then index + 1 else 0
  }

  /** Where the cursor stands after `k` moves from `index`, for `1 <= k <= len`:
      a cursor outside the pool behaves like the fresh cursor -1. */
  function Pos(index: int, len: nat, k: nat): (p: nat)
    requires index >= -1 && 1 <= k <= len
    ensures p < len
  {
    var b := if index < len then index else -1;
    if b + k < len then b + k else b + k - len
  }

  /** The number of moves from `index` that lands on record `j`. */
  function Offset(index: int, len: nat, j: nat): (d: nat)
    requires index >= -1 && j < len
    ensures 1 <= d <= len && Pos(index, len, d) == j
  {
    var b := if index < len then index else -1;
    if j > b then j - b else j - b + len
  }

  lemma StepIsPos(index: int, len: nat, k: nat)
    requires index >= -1 && 1 <= k <= len
    ensures Step(index, len) == Pos(index, len, 1)
    ensures k < len ==> Step(Pos(index, len, k), len) == Pos(index, len, k + 1)
  {
  }

  /** `d` moves from `index` reach the first usable record of the pool. */
  predicate FirstUsableAt(keys: seq<SfKeyEntry>, index: int, d: nat)
    requires index >= -1
  {
    && 1 <= d <= |keys|
    && Usable(keys[Pos(index, |keys|, d)])
    && forall k :: 1 <= k < d ==> !Usable(keys[Pos(index, |keys|, k)])
  }

  /** Rotates through `sf_keys` for `get_use_sf_key`. */
  class SfKeyCursor {
    /** `sf_keys_index`: the record picked by the previous call, -1 before the first. */
    var index: int

    ghost predicate Valid()
      reads this
    {
      index >= -1
    }

    constructor ()
      ensures Valid() && index == -1
    {
      index := -1;
    }

    /** Picks the next usable credential after the cursor, scanning at most one
        full circle. `None` stands for `null`. */
    method GetUseSfKey(keys: seq<SfKeyEntry>) returns (r: Option<string>)
      requires Valid()
      modifies this
      ensures Valid()
      ensures |keys| == 0 ==> r == None && index == old(index)
      ensures |keys| > 0 ==> 0 <= index < |keys|
      ensures r.Some? ==> exists i :: 0 <= i < |keys| && !keys[i].isDisable && r.value == keys[i].sfKey
      ensures (exists i :: 0 <= i < |keys| && Usable(keys[i])) ==>
                && (exists d :: FirstUsableAt(keys, old(index), d) && index == Pos(old(index), |keys|, d))
                && index == NextCursor(keys, old(index))
                && r == Some(keys[index].sfKey)
      ensures |keys| > 0 && (forall i :: 0 <= i < |keys| ==> !Usable(keys[i])) ==>
                && index == Pos(old(index), |keys|, |keys|)
                && r == (if exists i :: 0 <= i < |keys| && !keys[i].isDisable then Some("") else None)
    {
      ghost var start := index;
      var count := 0;
      r := None;
      while (r == None || r == Some("")) && count < |keys|
        invariant 0 <= count <= |keys| && index >= -1
        invariant count == 0 ==> index == start && r == None
        invariant count > 0 ==> index == Pos(start, |keys|, count)
        invariant forall k :: 1 <= k < count ==> !Usable(keys[Pos(start, |keys|, k)])
        invariant count > 0 && (r == None || r == Some("")) ==> !Usable(keys[index])
        invariant r != None && r != Some("") ==> count > 0 && Usable(keys[index]) && r == Some(keys[index].sfKey)
        invariant r == None ==> forall k :: 1 <= k <= count ==> keys[Pos(start, |keys|, k)].isDisable
        invariant r.Some? ==> exists i :: 0 <= i < |keys| && !keys[i].isDisable && r.value == keys[i].sfKey
      {
        StepIsPos(start, |keys|, if count == 0 then 1 else count);
        count := count + 1;
        if index < |keys| - 1 {
          index := index + 1;
        } else {
          index := 0;
        }
        if !keys[index].isDisable {
          r := Some(keys[index].sfKey);
        }
      }
      if exists i :: 0 <= i < |keys| && Usable(keys[i]) {
        var i :| 0 <= i < |keys| && Usable(keys[i]);
        var e := Offset(start, |keys|, i);
        assert !(r == None || r == Some(""));
        assert FirstUsableAt(keys, start, count);
        FirstUsableUnique(keys, start, count, MovesFrom(keys, start, 1));
      } else if |keys| > 0 {
        assert count == |keys|;
        if r == None {
          forall i | 0 <= i < |keys| ensures keys[i].isDisable {
            var e := Offset(start, |keys|, i);
          }
        }
      }
    }
  }

  predicate HasUsable(keys: seq<SfKeyEntry>)
  {
    exists i :: 0 <= i < |keys| && Usable(keys[i])
  }

  /** A full circle from any cursor passes a usable record if there is one. */
  lemma UsableIsReached(keys: seq<SfKeyEntry>, index: int)
    requires index >= -1 && HasUsable(keys)
    ensures exists k :: 1 <= k <= |keys| && Usable(keys[Pos(index, |keys|, k)])
  {
    var i :| 0 <= i < |keys| && Usable(keys[i]);
    var e := Offset(index, |keys|, i);
  }

  /** The number of moves a call makes from `index` when the pool has a usable
      record, counting from the `k`-th move on. */
  function MovesFrom(keys: seq<SfKeyEntry>, index: int, k: nat): (d: nat)
    requires index >= -1 && 1 <= k <= |keys| && HasUsable(keys)
    requires forall m :: 1 <= m < k ==> !Usable(keys[Pos(index, |keys|, m)])
    ensures FirstUsableAt(keys, index, d)
    decreases |keys| - k
  {
    if Usable(keys[Pos(index, |keys|, k)]) then k
    else if k == |keys| then
      UsableIsReached(keys, index);
      assert false;
      k
    else MovesFrom(keys, index, k + 1)
  }

  /** The cursor after one call on a pool that has a usable record. */
  function NextCursor(keys: seq<SfKeyEntry>, index: int): (next: nat)
    requires index >= -1 && HasUsable(keys)
    ensures next < |keys| && Usable(keys[next])
  {
    Pos(index, |keys|, MovesFrom(keys, index, 1))
  }

  /** The first usable record after the cursor is unique. */
  lemma FirstUsableUnique(keys: seq<SfKeyEntry>, index: int, d: nat, d': nat)
    requires index >= -1 && FirstUsableAt(keys, index, d) && FirstUsableAt(keys, index, d')
    ensures d == d'
  {
  }

  /** The cursor after `n` calls with an unchanged pool. */
  function CursorAfter(keys: seq<SfKeyEntry>, index: int, n: nat): (c: int)
    requires index >= -1 && HasUsable(keys)
    ensures c >= -1
    decreases n
  {
    if n == 0 then index else CursorAfter(keys, NextCursor(keys, index), n - 1)
  }

  /** One call either picks the usable record `j` or brings the cursor
      strictly closer to it. */
  lemma CallApproaches(keys: seq<SfKeyEntry>, index: int, j: nat)
    requires index >= -1 && j < |keys| && Usable(keys[j])
    ensures var next := NextCursor(keys, index);
              next == j || Offset(next, |keys|, j) < Offset(index, |keys|, j)
  {
    assert FirstUsableAt(keys, index, MovesFrom(keys, index, 1));
  }

  /** Fairness of the rotation: with an unchanged pool, every usable record
      `j` is picked within `|keys|` calls (at the latest on the call that
      reaches its offset from the cursor), whatever the cursor was. */
  lemma {:induction false} PickedWithinPool(keys: seq<SfKeyEntry>, index: int, j: nat)
    requires index >= -1 && j < |keys| && Usable(keys[j])
    ensures Offset(index, |keys|, j) <= |keys|
    ensures exists n :: 1 <= n <= Offset(index, |keys|, j) && CursorAfter(keys, index, n) == j
    decreases Offset(index, |keys|, j)
  {
    var next := NextCursor(keys, index);
    CallApproaches(keys, index, j);
    if next == j {
      assert CursorAfter(keys, index, 1) == j;
    } else {
      PickedWithinPool(keys, next, j);
      var n :| 1 <= n <= Offset(next, |keys|, j) && CursorAfter(keys, next, n) == j;
      assert CursorAfter(keys, index, n + 1) == j;
    }
  }

  /** Calls made from a fresh cursor on a pool whose records are all usable
      return the credentials in index order, one per call. */
  method CallsFromFresh(keys: seq<SfKeyEntry>) returns (served: seq<Option<string>>)
    requires forall i :: 0 <= i < |keys| ==> Usable(keys[i])
    ensures |served| == |keys|
    ensures forall i :: 0 <= i < |keys| ==> served[i] == Some(keys[i].sfKey)
  {
    var cursor := new SfKeyCursor();
    served := [];
    while |served| < |keys|
      invariant cursor.Valid() && |served| <= |keys|
      invariant cursor.index == |served| - 1
      invariant forall i :: 0 <= i < |served| ==> served[i] == Some(keys[i].sfKey)
    {
      ghost var before := cursor.index;
      assert Usable(keys[Pos(before, |keys|, 1)]);
      var r := cursor.GetUseSfKey(keys);
      served := served + [r];
    }
  }

  /** `ggKey.split(/[,，]/).map(key => key.trim()).filter(Boolean)`. */
  function GgKeyList(ggKey: string): (keys: seq<string>)
    ensures |keys| <= CountSeparators(ggKey) + 1
  {
    NonEmpty(TrimAll(SplitOnCommas(ggKey)))
  }

  /** `map(key => key.trim())`. */
  function TrimAll(pieces: seq<string>): (r: seq<string>)
    ensures |r| == |pieces|
  {
    if pieces == [] then [] else [Trim(pieces[0])] + TrimAll(pieces[1..])
  }

  /** Each piece is trimmed in place. */
  lemma {:induction false} TrimAllAt(pieces: seq<string>, i: nat)
    requires i < |pieces|
    ensures TrimAll(pieces)[i] == Trim(pieces[i])
  {
    assert TrimAll(pieces) == [Trim(pieces[0])] + TrimAll(pieces[1..]);
    if i > 0 {
      TrimAllAt(pieces[1..], i - 1);
    }
  }

  /** `filter(Boolean)` on strings: drops the empty ones, keeps the rest in order. */
  function NonEmpty(s: seq<string>): (r: seq<string>)
    ensures |r| <= |s|
  {
    if s == [] then [] else (if s[0] == "" then [] else [s[0]]) + NonEmpty(s[1..])
  }

  /** `filter(Boolean)` keeps exactly the non-empty strings. */
  lemma {:induction false} NonEmptyMembers(s: seq<string>)
    ensures forall x :: x in NonEmpty(s) <==> x in s && x != ""
  {
    if s != [] {
      NonEmptyMembers(s[1..]);
      assert s == [s[0]] + s[1..];
      assert NonEmpty(s) == (if s[0] == "" then [] else [s[0]]) + NonEmpty(s[1..]);
    }
  }

  /** `filter(Boolean)` commutes with concatenation and keeps a non-empty
      string where it stands: order and repeats are kept. */
  lemma {:induction false} NonEmptyAppend(a: seq<string>, b: seq<string>)
    ensures NonEmpty(a + b) == NonEmpty(a) + NonEmpty(b)
  {
    if a != [] {
      assert (a + b)[0] == a[0] && (a + b)[1..] == a[1..] + b;
      NonEmptyAppend(a[1..], b);
      assert NonEmpty(a + b) == (if a[0] == "" then [] else [a[0]]) + NonEmpty(a[1..] + b);
    } else {
      assert a + b == b;
    }
  }

  lemma NonEmptySingleton(x: string)
    ensures NonEmpty([x]) == (if x == "" then [] else [x])
  {
    assert [x][1..] == [];
  }

  /** `map(key => key.trim())` commutes with concatenation. */
  lemma {:induction false} TrimAllAppend(a: seq<string>, b: seq<string>)
    ensures TrimAll(a + b) == TrimAll(a) + TrimAll(b)
  {
    if a != [] {
      assert (a + b)[0] == a[0] && (a + b)[1..] == a[1..] + b;
      TrimAllAppend(a[1..], b);
    } else {
      assert a + b == b;
    }
  }

  /** The keys of two comma-joined key strings are the keys of the first
      followed by the keys of the second, so keys are served in the order
      they are configured. */
  lemma GgKeyListAppend(a: string, b: string)
    ensures GgKeyList(a + "," + b) == GgKeyList(a) + GgKeyList(b)
  {
    SplitOnCommasAppend(a, b);
    TrimAllAppend(SplitOnCommas(a), SplitOnCommas(b));
    NonEmptyAppend(TrimAll(SplitOnCommas(a)), TrimAll(SplitOnCommas(b)));
  }

  /** A string is a Gemini key exactly when it is a non-empty trimmed piece of the split. */
  lemma GgKeyListMembers(ggKey: string)
    ensures forall k :: k in GgKeyList(ggKey) <==>
              k != "" && exists p :: p in SplitOnCommas(ggKey) && Trim(p) == k
  {
    var pieces := SplitOnCommas(ggKey);
    NonEmptyMembers(TrimAll(pieces));
    forall k ensures k in GgKeyList(ggKey) <==> k != "" && exists p :: p in pieces && Trim(p) == k {
      TrimAllMember(pieces, k);
    }
  }

  /** The trimmed pieces are the trims of the pieces. */
  lemma TrimAllMember(pieces: seq<string>, k: string)
    ensures k in TrimAll(pieces) <==> exists p :: p in pieces && Trim(p) == k
  {
    var trimmed := TrimAll(pieces);
    if k in trimmed {
      var n :| 0 <= n < |trimmed| && trimmed[n] == k;
      TrimAllAt(pieces, n);
      assert pieces[n] in pieces && Trim(pieces[n]) == k;
    }
    if exists p :: p in pieces && Trim(p) == k {
      var p :| p in pieces && Trim(p) == k;
      var n :| 0 <= n < |pieces| && pieces[n] == p;
      TrimAllAt(pieces, n);
      assert trimmed[n] == k;
    }
  }

  /** Every Gemini key is non-empty, already trimmed and free of commas. */
  lemma GgKeyListShape(ggKey: string)
    ensures forall k :: k in GgKeyList(ggKey) ==> k != "" && Trim(k) == k && NoSeparator(k)
  {
    GgKeyListMembers(ggKey);
    SplitPiecesHaveNoSeparator(ggKey);
    forall k | k in GgKeyList(ggKey) ensures Trim(k) == k && NoSeparator(k) {
      var p :| p in SplitOnCommas(ggKey) && Trim(p) == k;
      TrimIdempotent(p);
      TrimKeepsNoSeparator(p);
    }
  }

  /** Rotates through the Gemini keys for `get_use_ggKey`. */
  class GgKeyCursor {
    /** `currentKeyIndex_ggKey`: the position of the key the next call returns. */
    var index: int

    ghost predicate Valid()
      reads this
    {
      index >= 0
    }

    constructor ()
      ensures Valid() && index == 0
    {
      index := 0;
    }

    /** Returns the key at the cursor and advances the cursor modulo the key
        count. `ggKey` is the configured string (`None` when it is missing);
        the result `None` stands for `undefined`, read when the key list has
        shrunk below the cursor; `Some("")` is the `''` of the empty cases. */
    method GetUseGgKey(ggKey: Option<string>) returns (r: Option<string>)
      requires Valid()
      modifies this
      ensures Valid()
      ensures var keys := if ggKey.Some? then GgKeyList(ggKey.value) else [];
                && (keys == [] ==> r == Some("") && index == old(index))
                && (keys != [] ==> 0 <= index < |keys| && index == (old(index) + 1) % |keys|)
                && (keys != [] ==> r == if old(index) < |keys| then Some(keys[old(index)]) else None)
    {
      if ggKey.None? || ggKey.value == "" {
        assert SplitOnCommas("") == [""];
        return Some("");
      }
      var keys := GgKeyList(ggKey.value);
      if |keys| == 0 {
        return Some("");
      }
      r := if index < |keys| then Some(keys[index]) else None;
      index := (index + 1) % |keys|;
    }
  }

  /** Within the list, the Gemini cursor's `(index + 1) % len` is the same
      circular step as the `sf_keys` cursor's: the next index, wrapping to 0. */
  lemma ModularAdvanceIsStep(index: int, len: nat)
    requires 0 <= index < len
    ensures (index + 1) % len == Step(index, len)
  {
  }

  /** Calls made from a fresh cursor with an unchanged configuration return
      the keys in order: the `n`-th call returns key `n`. */
  method GgCallsFromFresh(ggKey: string) returns (served: seq<Option<string>>)
    ensures |served| == |GgKeyList(ggKey)|
    ensures forall i :: 0 <= i < |served| ==> served[i] == Some(GgKeyList(ggKey)[i])
  {
    var cursor := new GgKeyCursor();
    var keys := GgKeyList(ggKey);
    served := [];
    for n := 0 to |keys|
      invariant cursor.Valid() && n == |served|
      invariant n < |keys| ==> cursor.index == n
      invariant forall i :: 0 <= i < n ==> served[i] == Some(keys[i])
    {
      ModularAdvanceIsStep(n, |keys|);
      var r := cursor.GetUseGgKey(Some(ggKey));
      served := served + [r];
    }
  }
}
