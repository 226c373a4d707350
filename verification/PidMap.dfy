/** The PID bitmap of arch/i386/task/task.c. */
module PidMap {

  const MAX_TASK: nat := 4096
  const MAX_PID: nat := 2 * MAX_TASK
  const WORDS: nat := MAX_PID / 32

  function Bit(j: nat): bv32
    requires j < 32
  {
    (1 as bv32) << j
  }

  predicate HasBit(w: bv32, j: nat)
    requires j < 32
  {
    w & Bit(j) != 0
  }

  /** Whether a PID is taken. */
  predicate Held(ws: seq<bv32>, p: nat)
    requires p < 32 * |ws|
  {
    HasBit(ws[p / 32], p % 32)
  }

  ghost function HeldPids(ws: seq<bv32>): set<nat> {
    set p: nat | p < 32 * |ws| && Held(ws, p)
  }

  /** The smallest number from p on that is not taken, or limit. */
  ghost function Lowest(taken: set<nat>, p: nat, limit: nat): (r: nat)
    requires p <= limit
    ensures p <= r <= limit
    ensures r < limit ==> r !in taken
    ensures forall q | p <= q < r :: q in taken
    decreases limit - p
  {
    if p == limit || p !in taken then p else Lowest(taken, p + 1, limit)
  }

  lemma LowestIs(taken: set<nat>, limit: nat, r: nat)
    requires r <= limit && (r < limit ==> r !in taken) && forall q | 0 <= q < r :: q in taken
    ensures Lowest(taken, 0, limit) == r
  {
  }

  // ---------- bits of one word ----------

  lemma BitsDisjoint(j: nat, l: nat)
    requires j < 32 && l < 32 && j != l
    ensures Bit(j) & Bit(l) == 0
  {
  }

  lemma OrKeeps(w: bv32, b: bv32, c: bv32)
    requires b & c == 0
    ensures (w | b) & c == w & c
  {
  }

  lemma AndNotKeeps(w: bv32, b: bv32, c: bv32)
    requires b & c == 0
    ensures (w & !b) & c == w & c
  {
  }

  lemma SetKeeps(w: bv32, j: nat, l: nat)
    requires j < 32 && l < 32 && j != l
    ensures HasBit(w | Bit(j), l) == HasBit(w, l)
  {
    BitsDisjoint(j, l);
    OrKeeps(w, Bit(j), Bit(l));
  }

  lemma ClearKeeps(w: bv32, j: nat, l: nat)
    requires j < 32 && l < 32 && j != l
    ensures HasBit(w & !Bit(j), l) == HasBit(w, l)
  {
    BitsDisjoint(j, l);
    AndNotKeeps(w, Bit(j), Bit(l));
  }

  lemma SetsBit(w: bv32, j: nat)
    requires j < 32
    ensures HasBit(w | Bit(j), j)
  {
  }

  lemma ClearsBit(w: bv32, j: nat)
    requires j < 32
    ensures !HasBit(w & !Bit(j), j)
  {
  }

  // ---------- the bitmap ----------

  lemma SetBit(w: bv32, j: nat, l: nat)
    requires j < 32 && l < 32
    ensures HasBit(w | Bit(j), l) <==> l == j || HasBit(w, l)
  {
    if j == l {
      SetsBit(w, j);
    } else {
      SetKeeps(w, j, l);
    }
  }

  lemma ClearBit(w: bv32, j: nat, l: nat)
    requires j < 32 && l < 32
    ensures HasBit(w & !Bit(j), l) <==> l != j && HasBit(w, l)
  {
    if j == l {
      ClearsBit(w, j);
    } else {
      ClearKeeps(w, j, l);
    }
  }

  /** Replacing word i by one that differs in bit j only. */
  lemma OneBit(ws: seq<bv32>, i: nat, j: nat, w: bv32, on: bool)
    requires i < |ws| && j < 32
    requires forall l: nat | l < 32 :: HasBit(w, l) == if l == j then on else HasBit(ws[i], l)
    ensures HeldPids(ws[i := w]) == if on then HeldPids(ws) + {32 * i + j} else HeldPids(ws) - {32 * i + j}
  {
  }

  lemma SetHeld(ws: seq<bv32>, i: nat, j: nat, w: bv32)
    requires i < |ws| && j < 32 && w == ws[i] | Bit(j)
    ensures HeldPids(ws[i := w]) == HeldPids(ws) + {32 * i + j}
  {
    forall l: nat | l < 32 ensures HasBit(w, l) == if l == j then true else HasBit(ws[i], l) {
      SetBit(ws[i], j, l);
    }
    OneBit(ws, i, j, w, true);
  }

  lemma ClearHeld(ws: seq<bv32>, i: nat, j: nat, w: bv32)
    requires i < |ws| && j < 32 && w == ws[i] & !Bit(j)
    ensures HeldPids(ws[i := w]) == HeldPids(ws) - {32 * i + j}
  {
    forall l: nat | l < 32 ensures HasBit(w, l) == if l == j then false else HasBit(ws[i], l) {
      ClearBit(ws[i], j, l);
    }
    OneBit(ws, i, j, w, false);
  }

  lemma NothingHeld(ws: seq<bv32>)
    requires forall i | 0 <= i < |ws| :: ws[i] == 0
    ensures HeldPids(ws) == {}
    ensures Lowest({}, 0, MAX_PID) == 0
  {
  }

  ghost predicate AllHeld(ws: seq<bv32>, n: nat) {
    n <= 32 * |ws| && forall q: nat | q < n :: Held(ws, q)
  }

  lemma FullWordHeld(ws: seq<bv32>, i: nat)
    requires i < |ws| && ws[i] == 0xFFFFFFFF && AllHeld(ws, 32 * i)
    ensures AllHeld(ws, 32 * (i + 1))
  {
  }

  lemma FirstGap(ws: seq<bv32>, n: nat)
    requires |ws| == WORDS && AllHeld(ws, n) && (n < MAX_PID ==> !Held(ws, n))
    ensures Lowest(HeldPids(ws), 0, MAX_PID) == n
  {
    LowestIs(HeldPids(ws), MAX_PID, n);
  }

  method Mark(map_: array<bv32>, i: nat, j: nat)
    requires i < WORDS < map_.Length && j < 32
    modifies map_
    ensures HeldPids(map_[..WORDS]) == old(HeldPids(map_[..WORDS])) + {32 * i + j} && map_[WORDS] == old(map_[WORDS])
  {
    ghost var ws := map_[..WORDS];
    map_[i] := map_[i] | Bit(j);
    assert map_[..WORDS] == ws[i := map_[i]];
    SetHeld(ws, i, j, map_[i]);
  }

  /** The inner loop of alloc_pid: the first clear bit of a word, or 32. */
  method FirstClear(w: bv32) returns (j: nat)
    ensures j <= 32 && (j < 32 ==> !HasBit(w, j)) && forall l: nat | l < j :: HasBit(w, l)
  {
    j := 0;
    while j < 32
      invariant j <= 32 && forall l: nat | l < j :: HasBit(w, l)
    {
      if !HasBit(w, j) {
        return;
      }
      j := j + 1;
    }
  }

  lemma WordHeld(ws: seq<bv32>, i: nat, j: nat)
    requires i < |ws| && j <= 32 && AllHeld(ws, 32 * i) && forall l: nat | l < j :: HasBit(ws[i], l)
    ensures AllHeld(ws, 32 * i + j)
  {
  }

  /** alloc_pid takes the smallest free PID; with none free it answers -1 and changes nothing. The
      array holds the bitmap and the word of memory behind it. */
  method AllocPid(map_: array<bv32>) returns (pid: int)
    requires map_.Length == WORDS + 1
    modifies map_
    ensures map_[WORDS] == old(map_[WORDS])
    ensures var p := Lowest(old(HeldPids(map_[..WORDS])), 0, MAX_PID);
      if p < MAX_PID then pid == p && HeldPids(map_[..WORDS]) == old(HeldPids(map_[..WORDS])) + {p}
      else pid == -1 && map_[..] == old(map_[..])
  {
    ghost var ws := map_[..WORDS];
    for i := 0 to WORDS
      invariant map_[..] == old(map_[..]) && AllHeld(ws, 32 * i)
    {
      assert map_[i] == ws[i];
      if map_[i] == 0xFFFFFFFF {
        FullWordHeld(ws, i);
        continue;
      }
      var j := FirstClear(map_[i]);
      WordHeld(ws, i, j);
      if j < 32 {
        FirstGap(ws, 32 * i + j);
        Mark(map_, i, j);
        return i * 32 + j;
      }
    }
    FirstGap(ws, MAX_PID);
    return -1;
  }

  /** free_pid. Its guard lets MAX_PID through as well, and then the word behind the bitmap loses a
      bit. */
  method FreePid(map_: array<bv32>, pid: int)
    requires map_.Length == WORDS + 1
    modifies map_
    ensures HeldPids(map_[..WORDS]) == old(HeldPids(map_[..WORDS])) - {pid}
    ensures map_[WORDS] == if pid == MAX_PID then old(map_[WORDS]) & !Bit(0) else old(map_[WORDS])
  {
    if pid < 0 || pid > MAX_PID {
      return;
    }
    assert pid == MAX_PID <==> pid / 32 == WORDS;
    Clear(map_, pid / 32, pid % 32);
  }

  method Clear(map_: array<bv32>, i: nat, j: nat)
    requires i <= WORDS < map_.Length && j < 32
    modifies map_
    ensures HeldPids(map_[..WORDS]) == if i < WORDS then old(HeldPids(map_[..WORDS])) - {32 * i + j} else old(HeldPids(map_[..WORDS]))
    ensures map_[WORDS] == if i == WORDS then old(map_[WORDS]) & !Bit(j) else old(map_[WORDS])
  {
    ghost var ws, w := map_[..WORDS], map_[i] & !Bit(j);
    map_[i] := map_[i] & !Bit(j);
    if i < WORDS {
      assert map_[..WORDS] == ws[i := w];
      ClearHeld(ws, i, j, w);
    } else {
      assert map_[..WORDS] == ws;
    }
  }
}
