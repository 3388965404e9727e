/** Block allocation of the KDSA backend: many clients, one shared bitmap, stale private copies, compare-and-swap. */
module Kdsa {
  import opened Options
  import opened MixedRadix
  // ----- words and bitmaps

  const WORD := 64

  /** A bitmap word, lowest bit first; true means used. */
  type Word = w: seq<bool> | |w| == WORD witness seq(WORD, _ => false)

  type Bitmap = seq<Word>

  predicate Full(w: Word) { forall b :: 0 <= b < WORD ==> w[b] }

  predicate Within(a: Bitmap, b: Bitmap) {
    |a| == |b| && forall w, i :: 0 <= w < |a| && 0 <= i < WORD ==> (a[w][i] ==> b[w][i])
  }

  function MapSize(blocks: nat): nat { (blocks + 63) / 64 }

  /** Block k is marked in the bitmap. */
  predicate Used(m: Bitmap, k: int)
  {
    0 <= k < WORD * |m| && m[k / WORD][k % WORD]
  }

  function EmptyWord(): (w: Word)
    ensures forall b :: 0 <= b < WORD ==> !w[b]
  {
    seq(WORD, _ => false)
  }

  function UsedFrom(n: nat): (w: Word)
    requires n <= WORD
    ensures forall b :: 0 <= b < WORD ==> (w[b] <==> b >= WORD - n)
  {
    seq(WORD, b => b >= WORD - n)
  }

  /** The bitmap that formatting writes: the bits of the last word that stand for no block are marked as used,
      by shifting in one used bit after the other from the top. */
  method FormatBitmap(blocks: nat) returns (m: Bitmap)
    requires blocks > 0
    ensures |m| == MapSize(blocks)
    ensures forall k :: blocks <= k < WORD * |m| ==> Used(m, k)
    ensures forall k :: 0 <= k < blocks ==> (Used(m, k) <==> blocks % WORD == 0 && k >= blocks - WORD)
  {
    m := seq(MapSize(blocks), _ => EmptyWord());
    var occupy := WORD - blocks % WORD;
    var val: Word := EmptyWord();
    for b := 0 to occupy
      invariant val == UsedFrom(b)
    {
      val := val[1..] + [true];
    }
    m := m[|m| - 1 := val];
    forall k | 0 <= k < WORD * |m| ensures Used(m, k) <==> k / WORD == |m| - 1 && k % WORD >= blocks % WORD {
      assert m[k / WORD] == if k / WORD == |m| - 1 then val else EmptyWord();
    }
    LastWord(blocks);
  }

  lemma LastWord(blocks: nat)
    requires blocks > 0
    ensures blocks % WORD == 0 ==> blocks == WORD * MapSize(blocks)
    ensures blocks % WORD != 0 ==> blocks == WORD * (MapSize(blocks) - 1) + blocks % WORD
  {}

  // ----- the system of clients

  /** A successful allocation. */
  datatype Alloc = Alloc(client: nat, block: nat)

  datatype State = State(shared: Bitmap, caches: seq<Bitmap>, allocs: seq<Alloc>)

  /** Atomic steps: a client refreshes one word of its copy, or tries to take the block that its copy shows as free. */
  datatype Step = Load(client: nat, word: nat) | Cas(client: nat, word: nat, bit: nat)

  predicate Enabled(st: State, s: Step) {
    && s.client < |st.caches| && s.word < |st.shared| && |st.caches[s.client]| == |st.shared|
    && (s.Cas? ==> s.bit < WORD && !st.caches[s.client][s.word][s.bit])
  }

  function SetBit(w: Word, b: nat): (r: Word)
    requires b < WORD
    ensures forall i :: 0 <= i < WORD ==> (r[i] <==> i == b || w[i])
  {
    w[b := true]
  }

  function SetWord(m: Bitmap, w: nat, v: Word): (r: Bitmap)
    requires w < |m|
    ensures |r| == |m| && forall i :: 0 <= i < |m| ==> r[i] == if i == w then v else m[i]
  {
    m[w := v]
  }

  /** Client c's copy of word w becomes v. */
  function Refresh(caches: seq<Bitmap>, c: nat, w: nat, v: Word): (r: seq<Bitmap>)
    requires c < |caches| && w < |caches[c]|
    ensures |r| == |caches| && forall i :: 0 <= i < |caches| ==> r[i] == if i == c then SetWord(caches[c], w, v) else caches[i]
  {
    caches[c := SetWord(caches[c], w, v)]
  }

  /** The compare-and-swap installs the new word only over the expected one, and tells the client the word it found. */
  function Exec(st: State, s: Step): State {
    if !Enabled(st, s) then st
    else
      var found: Word := st.shared[s.word];
      if s.Load? then
        st.(caches := Refresh(st.caches, s.client, s.word, found))
      else
        var expected := st.caches[s.client][s.word];
        var swap: Word := SetBit(expected, s.bit);
        if found == expected then
          State(SetWord(st.shared, s.word, swap), Refresh(st.caches, s.client, s.word, swap),
                st.allocs + [Alloc(s.client, s.bit + WORD * s.word)])
        else
          st.(caches := Refresh(st.caches, s.client, s.word, found))
  }

  function ExecAll(st: State, steps: seq<Step>): State
    decreases |steps|
  {
    if steps == [] then st else Exec(ExecAll(st, steps[..|steps| - 1]), steps[|steps| - 1])
  }

  lemma {:induction false} ExecAllConcat(st: State, a: seq<Step>, b: seq<Step>)
    ensures ExecAll(st, a + b) == ExecAll(ExecAll(st, a), b)
    decreases |b|
  {
    if b == [] {
      assert a + b == a;
    } else {
      var l := |b| - 1;
      assert (a + b)[..|a + b| - 1] == a + b[..l];
      ExecAllConcat(st, a, b[..l]);
    }
  }

  // ----- what every run keeps

  ghost predicate Allocated(st: State, k: int) {
    exists i :: 0 <= i < |st.allocs| && st.allocs[i].block == k
  }

  /** Relative to the formatted bitmap: the shared bitmap marks exactly the initially used and the allocated blocks,
      no block is allocated twice, and no copy shows more than the shared bitmap. */
  ghost predicate Inv(format: Bitmap, st: State) {
    && |st.shared| == |format|
    && (forall c :: 0 <= c < |st.caches| ==> Within(st.caches[c], st.shared))
    && (forall k :: 0 <= k < WORD * |format| ==> (Used(st.shared, k) <==> Used(format, k) || Allocated(st, k)))
    && (forall i :: 0 <= i < |st.allocs| ==> st.allocs[i].block < WORD * |format| && !Used(format, st.allocs[i].block))
    && (forall i, j :: 0 <= i < j < |st.allocs| ==> st.allocs[i].block != st.allocs[j].block)
  }

  lemma BlockOfBit(w: nat, b: nat)
    requires b < WORD
    ensures (b + WORD * w) / WORD == w && (b + WORD * w) % WORD == b
  {}

  lemma UsedAfterSet(m: Bitmap, w: nat, b: nat, k: int)
    requires w < |m| && b < WORD
    ensures Used(SetWord(m, w, SetBit(m[w], b)), k) <==> k == b + WORD * w || Used(m, k)
  {
    BlockOfBit(w, b);
  }

  lemma AllocatedAfter(st: State, a: Alloc, k: int)
    ensures Allocated(st.(allocs := st.allocs + [a]), k) <==> Allocated(st, k) || a.block == k
  {
    var t := st.allocs + [a];
    if Allocated(st, k) {
      var i :| 0 <= i < |st.allocs| && st.allocs[i].block == k;
      assert t[i].block == k;
    }
    if a.block == k { assert t[|st.allocs|].block == k; }
  }

  lemma CasKeepsInv(format: Bitmap, st: State, s: Step)
    requires Inv(format, st) && Enabled(st, s) && s.Cas? && st.shared[s.word] == st.caches[s.client][s.word]
    ensures Inv(format, Exec(st, s))
  {
    var st', k0 := Exec(st, s), s.bit + WORD * s.word;
    BlockOfBit(s.word, s.bit);
    assert !Used(st.shared, k0);
    forall k | 0 <= k < WORD * |format| ensures Used(st'.shared, k) <==> Used(format, k) || Allocated(st', k) {
      UsedAfterSet(st.shared, s.word, s.bit, k);
      AllocatedAfter(st, Alloc(s.client, k0), k);
      assert Allocated(st', k) <==> Allocated(st.(allocs := st'.allocs), k);
    }
    forall i | 0 <= i < |st.allocs| ensures st.allocs[i].block != k0 {
      assert Allocated(st, st.allocs[i].block);
    }
    forall c | 0 <= c < |st'.caches| ensures Within(st'.caches[c], st'.shared) {
      assert Within(st.caches[c], st.shared);
    }
  }

  lemma RefreshKeepsInv(format: Bitmap, st: State, s: Step)
    requires Inv(format, st) && Enabled(st, s)
    ensures Inv(format, st.(caches := Refresh(st.caches, s.client, s.word, st.shared[s.word])))
  {
    var st' := st.(caches := Refresh(st.caches, s.client, s.word, st.shared[s.word]));
    forall k ensures Allocated(st', k) <==> Allocated(st, k) {}
    forall c | 0 <= c < |st'.caches| ensures Within(st'.caches[c], st'.shared) {
      assert Within(st.caches[c], st.shared);
    }
  }

  lemma StepKeepsInv(format: Bitmap, st: State, s: Step)
    requires Inv(format, st)
    ensures Inv(format, Exec(st, s))
  {
    if Enabled(st, s) {
      if s.Cas? && st.shared[s.word] == st.caches[s.client][s.word] { CasKeepsInv(format, st, s); } else { RefreshKeepsInv(format, st, s); }
    }
  }

  lemma {:induction false} RunKeepsInv(format: Bitmap, st: State, steps: seq<Step>)
    requires Inv(format, st)
    ensures Inv(format, ExecAll(st, steps))
    decreases |steps|
  {
    if steps != [] {
      RunKeepsInv(format, st, steps[..|steps| - 1]);
      StepKeepsInv(format, ExecAll(st, steps[..|steps| - 1]), steps[|steps| - 1]);
    }
  }

  /** Clients start with any copy that marks no more than the volume does. */
  ghost predicate Initial(format: Bitmap, st: State) {
    st.shared == format && st.allocs == [] && forall c :: 0 <= c < |st.caches| ==> Within(st.caches[c], format)
  }

  /** What a formatted bitmap looks like: see FormatBitmap. */
  ghost predicate Formatted(format: Bitmap, blocks: nat) {
    blocks > 0 && |format| == MapSize(blocks) && forall k :: blocks <= k < WORD * |format| ==> Used(format, k)
  }

  /** The main theorem: over every run from a formatted volume, all allocated blocks exist and are distinct. */
  lemma AllocationsAreSafe(format: Bitmap, blocks: nat, st: State, steps: seq<Step>)
    requires Formatted(format, blocks) && Initial(format, st)
    ensures var r := ExecAll(st, steps);
      && (forall i :: 0 <= i < |r.allocs| ==> r.allocs[i].block < blocks)
      && (forall i, j :: 0 <= i < j < |r.allocs| ==> r.allocs[i].block != r.allocs[j].block)
      && (forall c :: 0 <= c < |r.caches| ==> Within(r.caches[c], r.shared))
      && (forall k :: 0 <= k < WORD * |format| ==> (Used(r.shared, k) <==> Used(format, k) || Allocated(r, k)))
  {
    assert Inv(format, st);
    RunKeepsInv(format, st, steps);
  }

  // ----- byte ranges

  const HEADER_BYTES := 32
  const WORD_BYTES := 8

  /** Where the data starts: behind header and bitmap, rounded up to 64 bytes. */
  function OffsetToData(blocks: nat): (r: nat)
    ensures HEADER_BYTES + MapSize(blocks) * WORD_BYTES <= r < HEADER_BYTES + MapSize(blocks) * WORD_BYTES + 64 && r % 64 == 0
  {
    var bytes := HEADER_BYTES + MapSize(blocks) * WORD_BYTES;
    RoundedUp(bytes);
    (bytes + 63) / 64 * 64
  }

  lemma RoundedUp(n: nat)
    ensures n <= (n + 63) / 64 * 64 < n + 64 && (n + 63) / 64 * 64 % 64 == 0
  {}

  function BlockOffset(k: nat, blocksize: nat, data: nat): nat { k * blocksize + data }

  lemma MulOrder(a: nat, b: nat, c: nat)
    requires a < b
    ensures a * c + c <= b * c
  {
    assert b * c == a * c + (b - a) * c;
    assert (b - a) * c == c + (b - a - 1) * c;
  }

  /** Distinct blocks occupy separate bytes, behind the metadata and inside the data area. */
  lemma RangesAreDisjoint(format: Bitmap, blocks: nat, blocksize: nat, st: State, steps: seq<Step>, i: nat, j: nat)
    requires Formatted(format, blocks) && Initial(format, st)
    requires i < j < |ExecAll(st, steps).allocs|
    ensures var r := ExecAll(st, steps);
      var x, y := BlockOffset(r.allocs[i].block, blocksize, OffsetToData(blocks)), BlockOffset(r.allocs[j].block, blocksize, OffsetToData(blocks));
      && (x + blocksize <= y || y + blocksize <= x)
      && HEADER_BYTES + MapSize(blocks) * WORD_BYTES <= x && x + blocksize <= OffsetToData(blocks) + blocks * blocksize
  {
    AllocationsAreSafe(format, blocks, st, steps);
    var r := ExecAll(st, steps);
    assert r.allocs[i].block != r.allocs[j].block && r.allocs[i].block < blocks;
    BlocksApart(r.allocs[i].block, r.allocs[j].block, blocks, blocksize, OffsetToData(blocks), HEADER_BYTES + MapSize(blocks) * WORD_BYTES);
  }

  lemma BlocksApart(a: nat, b: nat, blocks: nat, blocksize: nat, data: nat, meta: nat)
    requires a != b && a < blocks && meta <= data
    ensures var x, y := BlockOffset(a, blocksize, data), BlockOffset(b, blocksize, data);
      (x + blocksize <= y || y + blocksize <= x) && meta <= x && x + blocksize <= data + blocks * blocksize
  {
    if a < b { MulOrder(a, b, blocksize); } else { MulOrder(b, a, blocksize); }
    MulOrder(a, blocks, blocksize);
  }

  /** The number of blocks that formatting plans for a volume. */
  function BlockCount(blocksize: nat, volume: nat): nat {
    if volume <= HEADER_BYTES then 0
    else
      NatQuotient(64 * (volume - HEADER_BYTES), 1 + 64 * blocksize);
      64 * (volume - HEADER_BYTES) / (1 + 64 * blocksize)
  }

  lemma NatQuotient(x: nat, d: nat)
    requires d > 0
    ensures x / d >= 0
  {}

  lemma PlannedBytes(blocksize: nat, volume: nat)
    requires volume > HEADER_BYTES
    ensures var n := BlockCount(blocksize, volume);
      64 * (volume - HEADER_BYTES) == n + 64 * (n * blocksize) + 64 * (volume - HEADER_BYTES) % (1 + 64 * blocksize)
  {
    var x, d := 64 * (volume - HEADER_BYTES), 1 + 64 * blocksize;
    assert x == (x / d) * d + x % d;
    assert (x / d) * (1 + 64 * blocksize) == x / d + 64 * ((x / d) * blocksize);
  }

  /** All planned blocks lie inside the volume exactly if what is left over by the division has room for the bitmap, which
      has eight times as many bytes as the division counts, and for the rounding. */
  lemma BlocksInVolume(blocksize: nat, volume: nat)
    requires volume > HEADER_BYTES && BlockCount(blocksize, volume) >= 1
    ensures var n := BlockCount(blocksize, volume);
      (forall k: nat :: k < n ==> BlockOffset(k, blocksize, OffsetToData(n)) + blocksize <= volume)
      <==> 64 * (OffsetToData(n) - HEADER_BYTES) <= n + 64 * (volume - HEADER_BYTES) % (1 + 64 * blocksize)
  {
    var n := BlockCount(blocksize, volume);
    PlannedBytes(blocksize, volume);
    forall k: nat | k < n ensures BlockOffset(k, blocksize, OffsetToData(n)) + blocksize <= OffsetToData(n) + n * blocksize {
      MulOrder(k, n, blocksize);
    }
    assert BlockOffset(n - 1, blocksize, OffsetToData(n)) + blocksize == OffsetToData(n) + n * blocksize by {
      assert (n - 1) * blocksize + blocksize == n * blocksize;
    }
  }

  /** The only block of a volume of 97 bytes with blocks of 64 bytes reaches to byte 128. */
  lemma BlockOutside()
    ensures BlockCount(64, 97) == 1 && BlockOffset(0, 64, OffsetToData(1)) + 64 == 128
  {}

  // ----- conservation

  function FreeBlocks(m: Bitmap): set<int> { set k | 0 <= k < WORD * |m| && !Used(m, k) }

  ghost function AllocSet(allocs: seq<Alloc>): set<int> {
    if allocs == [] then {} else AllocSet(allocs[..|allocs| - 1]) + {allocs[|allocs| - 1].block}
  }

  lemma {:induction false} AllocSetFacts(allocs: seq<Alloc>)
    requires forall i, j :: 0 <= i < j < |allocs| ==> allocs[i].block != allocs[j].block
    ensures |AllocSet(allocs)| == |allocs|
    ensures forall k :: k in AllocSet(allocs) <==> exists i :: 0 <= i < |allocs| && allocs[i].block == k
  {
    if allocs != [] {
      var l := |allocs| - 1;
      AllocSetFacts(allocs[..l]);
      forall k ensures k in AllocSet(allocs) <==> exists i :: 0 <= i < |allocs| && allocs[i].block == k {
        if k in AllocSet(allocs[..l]) {
          var i :| 0 <= i < |allocs[..l]| && allocs[..l][i].block == k;
          assert allocs[i].block == k;
        }
        if i :| 0 <= i < |allocs| && allocs[i].block == k {
          if i < l { assert allocs[..l][i].block == k; }
        }
      }
    }
  }

  /** Every allocation uses up one free block, and nothing else does. */
  lemma FreeBlocksAreConserved(format: Bitmap, st: State, steps: seq<Step>)
    requires Initial(format, st)
    ensures |FreeBlocks(ExecAll(st, steps).shared)| == |FreeBlocks(format)| - |ExecAll(st, steps).allocs|
  {
    var r := ExecAll(st, steps);
    assert Inv(format, st);
    RunKeepsInv(format, st, steps);
    AllocSetFacts(r.allocs);
    var taken := AllocSet(r.allocs);
    forall k ensures k in FreeBlocks(r.shared) <==> k in FreeBlocks(format) && k !in taken {
      assert k in taken <==> Allocated(r, k);
    }
    assert FreeBlocks(r.shared) == FreeBlocks(format) - taken;
    RemovedCount(FreeBlocks(format), taken);
  }

  lemma RemovedCount(all: set<int>, taken: set<int>)
    requires taken <= all
    ensures |all - taken| == |all| - |taken|
  {
    assert all == (all - taken) + taken;
  }

  predicate Below(k: int, n: int) { 0 <= k < n }

  function Upto(n: nat): set<int> { set k | 0 <= k < n && Below(k, n) }

  lemma {:induction false} UptoSize(n: nat)
    ensures |Upto(n)| == n
  {
    if n > 0 {
      UptoSize(n - 1);
      assert Upto(n) == Upto(n - 1) + {n - 1};
    }
  }

  /** Formatting makes all blocks available exactly when their number is no multiple of the word size;
      otherwise the blocks of the last word are lost. */
  lemma FormattedCapacity(format: Bitmap, blocks: nat)
    requires Formatted(format, blocks)
    requires forall k :: 0 <= k < blocks ==> (Used(format, k) <==> blocks % WORD == 0 && k >= blocks - WORD)
    ensures |FreeBlocks(format)| == if blocks % WORD == 0 then blocks - WORD else blocks
  {
    LastWord(blocks);
    var n := if blocks % WORD == 0 then blocks - WORD else blocks;
    assert FreeBlocks(format) == Upto(n);
    UptoSize(n);
  }

  /** A volume of 64 blocks is full from the start. */
  method SixtyFourBlocks() returns (format: Bitmap)
    ensures |format| == 1 && FreeBlocks(format) == {}
  {
    format := FormatBitmap(WORD);
    FormattedCapacity(format, WORD);
  }

  // ----- taking a block out of one word, with other clients at work

  ghost function OwnAllocs(allocs: seq<Alloc>, c: nat): nat {
    if allocs == [] then 0 else OwnAllocs(allocs[..|allocs| - 1], c) + if allocs[|allocs| - 1].client == c then 1 else 0
  }

  /** None of the steps is client c's. */
  predicate Foreign(steps: seq<Step>, c: nat) {
    forall i :: 0 <= i < |steps| ==> steps[i].client != c
  }

  /** The state as client c knows it: its own copy and the number of blocks it got. */
  ghost predicate SameForClient(a: State, b: State, c: nat) {
    && |a.shared| == |b.shared| && |a.caches| == |b.caches| && c < |a.caches|
    && a.caches[c] == b.caches[c] && OwnAllocs(a.allocs, c) == OwnAllocs(b.allocs, c)
  }

  lemma {:induction false} ForeignSteps(st: State, steps: seq<Step>, c: nat)
    requires Foreign(steps, c) && c < |st.caches|
    ensures SameForClient(st, ExecAll(st, steps), c)
    decreases |steps|
  {
    if steps != [] {
      var l := |steps| - 1;
      ForeignSteps(st, steps[..l], c);
      var mid := ExecAll(st, steps[..l]);
      var r := Exec(mid, steps[l]);
      if |r.allocs| > |mid.allocs| { assert r.allocs[..|mid.allocs|] == mid.allocs; }
    }
  }

  /** Nobody else makes a step. */
  ghost predicate Quiet(env: seq<seq<Step>>) {
    forall b :: 0 <= b < |env| ==> env[b] == []
  }

  /** When nobody interferes: the first free bit of the copy is taken if the copy is up to date,
      otherwise that attempt only refreshes the copy, and the first free bit behind it is taken. */
  ghost predicate QuietSuccess(copy: Word, word: Word) {
    if copy == word then !Full(word)
    else exists b, d :: 0 <= b < d < WORD && !copy[b] && (forall i :: 0 <= i < b ==> copy[i]) && !word[d]
  }

  /** Bit b is the one that is taken then. */
  ghost predicate TakenWhenQuiet(copy: Word, word: Word, b: int) {
    && 0 <= b < WORD && !word[b]
    && (if copy == word then forall i :: 0 <= i < b ==> word[i]
        else exists a :: 0 <= a < b && !copy[a] && (forall i :: 0 <= i < a ==> copy[i]) && (forall i :: a < i < b ==> word[i]))
  }

  /** How far client c has come with word w when nobody interferes: still at its first copy, or after a failed attempt. */
  ghost predicate QuietProgress(copy: Word, word: Word, now: Word, tried: int, b: int) {
    if tried < 0 then now == copy && forall i :: 0 <= i < b && i < WORD ==> copy[i]
    else
      && copy != word && now == word && tried < b && tried < WORD && !copy[tried]
      && (forall i :: 0 <= i < tried ==> copy[i]) && (forall i :: tried < i < b && i < WORD ==> word[i])
  }

  lemma QuietStop(copy: Word, word: Word, now: Word, tried: int)
    requires QuietProgress(copy, word, now, tried, WORD) || exists b :: 0 <= b < WORD && QuietProgress(copy, word, now, tried, b) && Full(now)
    ensures !QuietSuccess(copy, word)
  {
    if copy != word {
      forall b, d | 0 <= b < d < WORD && !copy[b] && (forall i :: 0 <= i < b ==> copy[i]) ensures word[d] {
        if tried >= 0 { assert b == tried; }
      }
    }
  }

  lemma QuietTake(copy: Word, word: Word, now: Word, tried: int, b: int)
    requires 0 <= b < WORD && QuietProgress(copy, word, now, tried, b) && now == word && !now[b]
    ensures QuietSuccess(copy, word) && TakenWhenQuiet(copy, word, b)
  {}

  /** An attempt to take bit b with an up-to-date copy succeeds ... */
  lemma AttemptTakes(r: State, c: nat, w: nat, b: nat)
    requires c < |r.caches| && w < |r.shared| == |r.caches[c]| && b < WORD && !r.caches[c][w][b] && r.shared[w] == r.caches[c][w]
    ensures Exec(r, Cas(c, w, b)).allocs == r.allocs + [Alloc(c, b + WORD * w)]
    ensures OwnAllocs(Exec(r, Cas(c, w, b)).allocs, c) == OwnAllocs(r.allocs, c) + 1
  {
    var allocs := r.allocs + [Alloc(c, b + WORD * w)];
    assert allocs[..|allocs| - 1] == r.allocs;
  }

  /** ... and with an outdated one only brings it up to date. */
  lemma AttemptMisses(r: State, c: nat, w: nat, b: nat)
    requires c < |r.caches| && w < |r.shared| == |r.caches[c]| && b < WORD && !r.caches[c][w][b] && r.shared[w] != r.caches[c][w]
    ensures Exec(r, Cas(c, w, b)).allocs == r.allocs && Exec(r, Cas(c, w, b)).shared == r.shared
    ensures |Exec(r, Cas(c, w, b)).caches| == |r.caches| && |Exec(r, Cas(c, w, b)).caches[c]| == |r.caches[c]|
    ensures Exec(r, Cas(c, w, b)).caches[c][w] == r.shared[w]
  {}

  lemma ExecOne(st: State, trace: seq<Step>, s: Step)
    ensures ExecAll(st, trace + [s]) == Exec(ExecAll(st, trace), s)
  {
    assert (trace + [s])[..|trace|] == trace;
  }

  /** What client c has done so far, without success: r is reached by the steps of trace. */
  ghost predicate Trying(st: State, c: nat, r: State, trace: seq<Step>) {
    && r == ExecAll(st, trace)
    && c < |r.caches| && |r.shared| == |st.shared| == |r.caches[c]| && OwnAllocs(r.allocs, c) == OwnAllocs(st.allocs, c)
  }

  /** The steps of the other clients. */
  ghost function Others(trace: seq<Step>, c: nat): seq<Step> {
    if trace == [] then []
    else Others(trace[..|trace| - 1], c) + if trace[|trace| - 1].client != c then [trace[|trace| - 1]] else []
  }

  ghost function Joined(env: seq<seq<Step>>, n: nat): seq<Step>
    requires n <= |env|
  {
    if n == 0 then [] else Joined(env, n - 1) + env[n - 1]
  }

  lemma {:induction false} OthersThen(trace: seq<Step>, env: seq<Step>, c: nat)
    requires Foreign(env, c)
    ensures Others(trace + env, c) == Others(trace, c) + env
  {
    if env == [] {
      assert trace + env == trace;
    } else {
      var rest, all := env[..|env| - 1], trace + env;
      OthersThen(trace, rest, c);
      assert all[..|all| - 1] == trace + rest && rest + [env[|env| - 1]] == env;
    }
  }

  lemma OthersOwn(trace: seq<Step>, step: Step, c: nat)
    requires step.client == c
    ensures Others(trace + [step], c) == Others(trace, c)
  {
    assert (trace + [step])[..|trace|] == trace;
  }

  /** The others made the steps of the first n turns. */
  ghost predicate LetIn(trace: seq<Step>, c: nat, env: seq<seq<Step>>, n: nat) {
    n <= |env| && Others(trace, c) == Joined(env, n)
  }

  /** In each turn, the others make the steps that the environment has for it. */
  ghost predicate Interleaved(trace: seq<Step>, c: nat, env: seq<seq<Step>>) {
    exists n: nat :: n > 0 && LetIn(trace, c, env, n)
  }

  /** Turn b of the others. */
  method Turn(st: State, c: nat, before: State, env: seq<seq<Step>>, b: nat, ghost sofar: seq<Step>) returns (r: State, ghost trace: seq<Step>)
    requires Trying(st, c, before, sofar) && b < |env| && Foreign(env[b], c) && LetIn(sofar, c, env, b)
    ensures Trying(st, c, r, trace) && r.caches[c] == before.caches[c] && (env[b] == [] ==> r == before)
    ensures LetIn(trace, c, env, b + 1)
  {
    ForeignSteps(before, env[b], c);
    OthersThen(sofar, env[b], c);
    ExecAllConcat(st, sofar, env[b]);
    r, trace := ExecAll(before, env[b]), sofar + env[b];
  }

  /** One compare-and-swap: it takes the block if the copy is up to date, otherwise it brings the copy up to date. */
  method AttemptBit(st: State, c: nat, w: nat, b: nat, before: State, ghost sofar: seq<Step>) returns (r: State, taken: bool, ghost trace: seq<Step>)
    requires Trying(st, c, before, sofar) && w < |st.shared| && b < WORD && !before.caches[c][w][b]
    ensures r == ExecAll(st, trace) && (taken <==> before.shared[w] == before.caches[c][w])
    ensures taken ==> r.allocs != [] && r.allocs[|r.allocs| - 1] == Alloc(c, WORD * w + b) && OwnAllocs(r.allocs, c) == OwnAllocs(st.allocs, c) + 1
    ensures !taken ==> Trying(st, c, r, trace) && r.shared == before.shared && r.caches[c][w] == before.shared[w]
    ensures forall env, n :: LetIn(sofar, c, env, n) ==> LetIn(trace, c, env, n)
  {
    OthersOwn(sofar, Cas(c, w, b), c);
    taken := before.shared[w] == before.caches[c][w];
    if taken { AttemptTakes(before, c, w, b); } else { AttemptMisses(before, c, w, b); }
    ExecOne(st, sofar, Cas(c, w, b));
    r, trace := Exec(before, Cas(c, w, b)), sofar + [Cas(c, w, b)];
  }

  method TryToUseBlock(st: State, c: nat, w: nat, env: seq<seq<Step>>) returns (r: State, block: Option<nat>, ghost trace: seq<Step>)
    requires c < |st.caches| && w < |st.shared| && |st.caches[c]| == |st.shared|
    requires |env| == WORD && forall b :: 0 <= b < WORD ==> Foreign(env[b], c)
    ensures r == ExecAll(st, trace) && Interleaved(trace, c, env)
    ensures block.Some? ==> r.allocs != [] && r.allocs[|r.allocs| - 1] == Alloc(c, block.value) && block.value / WORD == w
    ensures OwnAllocs(r.allocs, c) == OwnAllocs(st.allocs, c) + if block.Some? then 1 else 0
    ensures Quiet(env) ==> (block.Some? <==> QuietSuccess(st.caches[c][w], st.shared[w]))
    ensures Quiet(env) && st.caches[c][w] == st.shared[w] && block.None? ==> r == st
    ensures Quiet(env) && block.Some? ==> TakenWhenQuiet(st.caches[c][w], st.shared[w], block.value % WORD)
  {
    r, trace, block := st, [], None;
    ghost var quiet := Quiet(env);
    ghost var copy, word, tried := st.caches[c][w], st.shared[w], -1;
    for b := 0 to WORD
      invariant Trying(st, c, r, trace) && LetIn(trace, c, env, b)
      invariant quiet ==> r.shared[w] == word && QuietProgress(copy, word, r.caches[c][w], tried, b)
      invariant quiet && copy == word ==> r == st
    {
      assert quiet ==> env[b] == [];
      r, trace := Turn(st, c, r, env, b, trace);
      var expected := r.caches[c][w];
      if Full(expected) {
        if quiet { QuietStop(copy, word, expected, tried); }
        return;
      }
      if !expected[b] {
        var taken;
        r, taken, trace := AttemptBit(st, c, w, b, r, trace);
        if taken {
          if quiet { QuietTake(copy, word, expected, tried, b); }
          BlockOfBit(w, b);
          block := Some(b + WORD * w);
          return;
        }
        if quiet { QuietMiss(copy, word, expected, tried, b); }
        tried := b;
      }
    }
    if quiet { QuietStop(copy, word, r.caches[c][w], tried); }
  }

  /** A failed attempt without interference: it was the first one, and the copy was out of date. */
  lemma QuietMiss(copy: Word, word: Word, now: Word, tried: int, b: int)
    requires 0 <= b < WORD && QuietProgress(copy, word, now, tried, b) && now != word && !now[b]
    ensures QuietProgress(copy, word, word, b, b + 1)
  {}

  // ----- finding a block on the volume

  ghost function FreeBelow(m: Bitmap, k: nat): set<int> { set i | 0 <= i < k && i < WORD * |m| && !Used(m, i) }

  lemma FreeStep(m: Bitmap, k: nat)
    requires k < WORD * |m|
    ensures |FreeBelow(m, k + 1)| == |FreeBelow(m, k)| + if Used(m, k) then 0 else 1
  {
    var a, b := FreeBelow(m, k), FreeBelow(m, k + 1);
    if Used(m, k) {
      forall i ensures i in b <==> i in a {}
      assert b == a;
    } else {
      forall i ensures i in b <==> i in a + {k} {}
      assert b == a + {k} && k !in a;
    }
  }

  /** Counts the free bits of one word, lowest bit first. */
  method CountWord(m: Bitmap, w: nat) returns (n: nat)
    requires w < |m|
    ensures |FreeBelow(m, WORD * (w + 1))| == |FreeBelow(m, WORD * w)| + n
  {
    n := 0;
    for b := 0 to WORD
      invariant |FreeBelow(m, WORD * w + b)| == |FreeBelow(m, WORD * w)| + n
    {
      BlockOfBit(w, b);
      FreeStep(m, WORD * w + b);
      if !m[w][b] { n := n + 1; }
    }
  }

  method CountFree(m: Bitmap) returns (n: nat)
    ensures n == |FreeBlocks(m)|
  {
    n := 0;
    for w := 0 to |m|
      invariant n == |FreeBelow(m, WORD * w)|
    {
      var k := CountWord(m, w);
      n := n + k;
    }
    assert FreeBelow(m, WORD * |m|) == FreeBlocks(m);
  }

  /** One word is read again. */
  method LoadWord(st: State, c: nat, w: nat, before: State, ghost sofar: seq<Step>) returns (r: State, ghost trace: seq<Step>)
    requires Trying(st, c, before, sofar) && w < |st.shared|
    ensures Trying(st, c, r, trace) && forall env, n :: LetIn(sofar, c, env, n) ==> LetIn(trace, c, env, n)
    ensures r.shared == before.shared && forall i :: 0 <= i < |r.shared| ==> r.caches[c][i] == if i == w then r.shared[i] else before.caches[c][i]
  {
    OthersOwn(sofar, Load(c, w), c);
    ExecOne(st, sofar, Load(c, w));
    r, trace := Exec(before, Load(c, w)), sofar + [Load(c, w)];
  }

  /** Re-reads the shared bitmap word by word, while others may change it, and counts the free blocks of the copy. */
  method LoadBlockBitmap(st: State, c: nat, env: seq<seq<Step>>) returns (r: State, free: nat, ghost trace: seq<Step>)
    requires c < |st.caches| && |st.caches[c]| == |st.shared| && |env| == |st.shared|
    requires forall i :: 0 <= i < |env| ==> Foreign(env[i], c)
    ensures r == ExecAll(st, trace) && c < |r.caches| && |r.caches[c]| == |r.shared| == |st.shared|
    ensures free == |FreeBlocks(r.caches[c])|
    ensures OwnAllocs(r.allocs, c) == OwnAllocs(st.allocs, c)
    ensures Quiet(env) ==> r.caches[c] == r.shared == st.shared
    ensures LetIn(trace, c, env, |env|)
  {
    r, trace := st, [];
    ghost var quiet := Quiet(env);
    for w := 0 to |st.shared|
      invariant Trying(st, c, r, trace) && LetIn(trace, c, env, w)
      invariant quiet ==> r.shared == st.shared && forall i :: 0 <= i < w ==> r.caches[c][i] == r.shared[i]
    {
      assert quiet ==> env[w] == [];
      r, trace := Turn(st, c, r, env, w, trace);
      r, trace := LoadWord(st, c, w, r, trace);
    }
    free := CountFree(r.caches[c]);
  }

  /** What an attempt to store a fragment did: only steps of the system, and one block for the client if it succeeded. */
  ghost predicate Outcome(st: State, c: nat, r: State, trace: seq<Step>, block: Option<nat>) {
    && r == ExecAll(st, trace)
    && c < |r.caches| && |r.caches[c]| == |r.shared| == |st.shared|
    && OwnAllocs(r.allocs, c) == OwnAllocs(st.allocs, c) + (if block.Some? then 1 else 0)
    && (block.Some? ==> r.allocs != [] && r.allocs[|r.allocs| - 1] == Alloc(c, block.value))
  }

  lemma OutcomeThen(st: State, c: nat, mid: State, a: seq<Step>, r: State, b: seq<Step>, block: Option<nat>)
    requires Outcome(st, c, mid, a, None) && Outcome(mid, c, r, b, block)
    ensures Outcome(st, c, r, a + b, block)
  {
    ExecAllConcat(st, a, b);
  }

  lemma {:induction false} RunKeepsShape(st: State, steps: seq<Step>, c: nat)
    requires c < |st.caches| && |st.caches[c]| == |st.shared|
    ensures var r := ExecAll(st, steps); c < |r.caches| && |r.caches[c]| == |r.shared| == |st.shared|
    decreases |steps|
  {
    if steps != [] { RunKeepsShape(st, steps[..|steps| - 1], c); }
  }

  /** The block belongs to the first free bit of word w. */
  ghost predicate FirstFree(m: Bitmap, w: nat, block: nat) {
    w < |m| && block / WORD == w && !m[w][block % WORD] && forall i :: 0 <= i < block % WORD ==> m[w][i]
  }

  method TryWord(st: State, c: nat, w: nat, env: seq<seq<Step>>) returns (r: State, block: Option<nat>, ghost trace: seq<Step>)
    requires c < |st.caches| && w < |st.shared| && |st.caches[c]| == |st.shared|
    requires |env| == WORD && forall b :: 0 <= b < WORD ==> Foreign(env[b], c)
    ensures Outcome(st, c, r, trace, block)
    ensures Quiet(env) && st.caches[c][w] == st.shared[w] ==> (block.Some? <==> !Full(st.shared[w])) && (block.None? ==> r == st)
    ensures Quiet(env) && st.caches[c][w] == st.shared[w] && block.Some? ==> FirstFree(st.shared, w, block.value)
  {
    r, block, trace := TryToUseBlock(st, c, w, env);
    RunKeepsShape(st, trace, c);
  }

  ghost predicate AllQuiet(env: seq<seq<seq<Step>>>) {
    forall i :: 0 <= i < |env| ==> Quiet(env[i])
  }

  /** What the other clients do while a client tries a number of words. */
  predicate Meanwhile(env: seq<seq<seq<Step>>>, c: nat) {
    && (forall i :: 0 <= i < |env| ==> |env[i]| == WORD)
    && (forall i, b :: 0 <= i < |env| && 0 <= b < WORD ==> Foreign(env[i][b], c))
  }

  /** All picked words are full. */
  ghost predicate AllFull(m: Bitmap, picks: seq<nat>)
  {
    m != [] && forall k :: 0 <= k < |picks| ==> Full(m[picks[k] % |m|])
  }

  /** Tries randomly picked words. */
  method TryPicks(st: State, c: nat, picks: seq<nat>, env: seq<seq<seq<Step>>>) returns (r: State, block: Option<nat>, ghost trace: seq<Step>)
    requires c < |st.caches| && |st.caches[c]| == |st.shared| > 0 && |env| == |picks| && Meanwhile(env, c)
    ensures Outcome(st, c, r, trace, block)
    ensures AllQuiet(env) && st.caches[c] == st.shared && block.Some? ==>
      exists k :: 0 <= k < |picks| && FirstFree(st.shared, picks[k] % |st.shared|, block.value) && AllFull(st.shared, picks[..k])
    ensures AllQuiet(env) && st.caches[c] == st.shared && block.None? ==> r == st && AllFull(st.shared, picks)
  {
    r, block, trace := st, None, [];
    ghost var quiet := AllQuiet(env) && st.caches[c] == st.shared;
    for i := 0 to |picks|
      invariant Outcome(st, c, r, trace, None) && block.None?
      invariant quiet ==> r == st && AllFull(st.shared, picks[..i])
    {
      assert quiet ==> Quiet(env[i]);
      ghost var t, mid, a;
      mid, a := r, trace;
      var w := picks[i] % |st.shared|;
      r, block, t := TryWord(r, c, w, env[i]);
      OutcomeThen(st, c, mid, a, r, t, block);
      trace := trace + t;
      if block.Some? {
        if quiet { assert FirstFree(st.shared, picks[i] % |st.shared|, block.value); }
        return;
      }
      assert picks[..i + 1] == picks[..i] + [picks[i]];
    }
    assert picks[..|picks|] == picks;
  }

  function FromWord(m: Bitmap, start: nat, j: nat): Word
    requires m != []
  {
    m[(j + start) % |m|]
  }

  /** The block is the first free one of the first word from the given one on that is not full. */
  ghost predicate FoundFrom(m: Bitmap, start: nat, block: nat) {
    exists k: nat :: FoundAt(m, start, k, block)
  }

  ghost predicate FoundAt(m: Bitmap, start: nat, k: nat, block: nat) {
    k < |m| && FirstFree(m, (k + start) % |m|, block) && forall j: nat :: j < k ==> Full(FromWord(m, start, j))
  }

  /** Tries all words, from the given one on. */
  method TryAll(st: State, c: nat, start: nat, env: seq<seq<seq<Step>>>) returns (r: State, block: Option<nat>, ghost trace: seq<Step>)
    requires c < |st.caches| && |st.caches[c]| == |st.shared| == |env| > 0 && Meanwhile(env, c)
    ensures Outcome(st, c, r, trace, block)
    ensures AllQuiet(env) && st.caches[c] == st.shared ==> (block.Some? <==> FreeBlocks(st.shared) != {})
    ensures AllQuiet(env) && st.caches[c] == st.shared && block.Some? ==> FoundFrom(st.shared, start, block.value)
  {
    r, block, trace := st, None, [];
    ghost var quiet := AllQuiet(env) && st.caches[c] == st.shared;
    for i := 0 to |st.shared|
      invariant Outcome(st, c, r, trace, None) && block.None?
      invariant quiet ==> r == st && forall j: nat :: j < i ==> Full(FromWord(st.shared, start, j))
    {
      assert quiet ==> Quiet(env[i]);
      ghost var t, mid, a;
      mid, a := r, trace;
      var w := (i + start) % |st.shared|;
      r, block, t := TryWord(r, c, w, env[i]);
      OutcomeThen(st, c, mid, a, r, t, block);
      trace := trace + t;
      if block.Some? {
        if quiet {
          FreeInWord(st.shared, w);
          assert FoundAt(st.shared, start, i, block.value);
        }
        return;
      }
      assert quiet ==> Full(FromWord(st.shared, start, i));
    }
    if quiet { AllWordsSeen(st.shared, start); }
  }

  /** The search over the volume: random words first, then all words from a random one on.
      picks and start stand for the random numbers, env for what the other clients do meanwhile. */
  method FindBlock(st: State, c: nat, picks: seq<nat>, start: nat, env: seq<seq<seq<Step>>>) returns (r: State, block: Option<nat>, ghost trace: seq<Step>)
    requires c < |st.caches| && |st.caches[c]| == |st.shared| > 0 && |env| == |picks| + |st.shared| && Meanwhile(env, c)
    ensures Outcome(st, c, r, trace, block)
    ensures AllQuiet(env) && st.caches[c] == st.shared ==> (block.Some? <==> FreeBlocks(st.shared) != {})
    ensures AllQuiet(env) && st.caches[c] == st.shared && block.Some? ==>
      if AllFull(st.shared, picks) then FoundFrom(st.shared, start, block.value)
      else exists k :: 0 <= k < |picks| && FirstFree(st.shared, picks[k] % |st.shared|, block.value) && AllFull(st.shared, picks[..k])
  {
    r, block, trace := TryPicks(st, c, picks, env[..|picks|]);
    if AllQuiet(env) && st.caches[c] == st.shared && block.Some? {
      ghost var k :| 0 <= k < |picks| && FirstFree(st.shared, picks[k] % |st.shared|, block.value) && AllFull(st.shared, picks[..k]);
      FreeInWord(st.shared, picks[k] % |st.shared|);
    }
    if block.None? {
      ghost var t, mid, a;
      mid, a := r, trace;
      r, block, t := TryAll(r, c, start, env[|picks|..]);
      OutcomeThen(st, c, mid, a, r, t, block);
      trace := a + t;
    }
  }

  lemma FreeInWord(m: Bitmap, w: nat)
    requires w < |m| && !Full(m[w])
    ensures FreeBlocks(m) != {}
  {
    var b :| 0 <= b < WORD && !m[w][b];
    BlockOfBit(w, b);
    assert b + WORD * w in FreeBlocks(m);
  }

  /** The search from a random word on comes to every word. */
  lemma AllWordsSeen(m: Bitmap, start: nat)
    requires m != [] && forall j: nat :: j < |m| ==> Full(FromWord(m, start, j))
    ensures FreeBlocks(m) == {}
  {
    forall k | 0 <= k < WORD * |m| ensures Used(m, k) {
      var j := WordIsSeen(k / WORD, start, |m|);
      assert Full(FromWord(m, start, j));
    }
  }

  lemma WordIsSeen(w: nat, start: nat, size: nat) returns (j: nat)
    requires w < size
    ensures j < size && (j + start) % size == w
  {
    var q, s := start / size, start % size;
    if s <= w {
      j := w - s;
      DivModOf(q, size, w);
    } else {
      j := w + size - s;
      assert j + start == (q + 1) * size + w;
      DivModOf(q + 1, size, w);
    }
  }

  predicate NearlyFull(estimate: int, blocks: nat)
    requires blocks > 0
  {
    estimate * 100 / blocks <= 3
  }

  /** Nearly full means that less than four percent of the blocks seem to be free. */
  lemma NearlyFullMeans(estimate: int, blocks: nat)
    requires blocks > 0
    ensures NearlyFull(estimate, blocks) <==> estimate * 100 < 4 * blocks
  {
    var q := estimate * 100 / blocks;
    assert estimate * 100 == q * blocks + estimate * 100 % blocks;
    if q <= 3 { MulMonotone(q, 3, blocks); } else { MulMonotone(4, q, blocks); }
  }

  lemma NotNearlyFull(estimate: int, blocks: nat)
    requires blocks > 0 && estimate >= 0
    ensures !NearlyFull(estimate, blocks) ==> estimate >= 1
  {
    if estimate == 0 { assert 0 / blocks == 0; }
  }

  lemma PositiveOffset(k: nat, blocksize: nat, blocks: nat)
    ensures BlockOffset(k, blocksize, OffsetToData(blocks)) > 0
  {
    assert OffsetToData(blocks) >= HEADER_BYTES;
    assert k * blocksize >= 0;
  }

  /** The offset at which a fragment can be stored, or 0. The copy is re-read when it seems to be nearly full. */
  method FindOffset(st: State, c: nat, estimate: int, blocks: nat, blocksize: nat, readOk: bool, picks: seq<nat>, start: nat,
                    loadEnv: seq<seq<Step>>, env: seq<seq<seq<Step>>>)
    returns (r: State, offset: nat, newEstimate: int, ghost trace: seq<Step>, ghost block: Option<nat>, ghost loaded: seq<Step>)
    requires blocks > 0 && estimate >= 0 && c < |st.caches| && |st.caches[c]| == |st.shared| == MapSize(blocks)
    requires |loadEnv| == |st.shared| && forall i :: 0 <= i < |loadEnv| ==> Foreign(loadEnv[i], c)
    requires |env| == |picks| + |st.shared| && Meanwhile(env, c)
    ensures Outcome(st, c, r, trace, block)
    ensures offset == if block.Some? then BlockOffset(block.value, blocksize, OffsetToData(blocks)) else 0
    ensures offset != 0 <==> block.Some?
    ensures newEstimate >= 0 && loaded <= trace && c < |ExecAll(st, loaded).caches|
    ensures newEstimate == (if !NearlyFull(estimate, blocks) then estimate else if readOk then |FreeBlocks(ExecAll(st, loaded).caches[c])| else 0)
      - (if block.Some? then 1 else 0)
    ensures NearlyFull(estimate, blocks) && !readOk ==> block.None?
    ensures Quiet(loadEnv) && AllQuiet(env) && (if NearlyFull(estimate, blocks) then readOk else st.caches[c] == st.shared)
      ==> (block.Some? <==> FreeBlocks(st.shared) != {})
  {
    r, trace, block, newEstimate, loaded := st, [], None, estimate, [];
    NotNearlyFull(estimate, blocks);
    if NearlyFull(estimate, blocks) {
      if !readOk { return st, 0, 0, [], None, []; }
      r, newEstimate, trace := LoadBlockBitmap(st, c, loadEnv);
      loaded := trace;
      if newEstimate == 0 { return r, 0, 0, trace, None, loaded; }
    }
    ghost var mid, a := r, trace;
    var found;
    ghost var t;
    r, found, t := FindBlock(r, c, picks, start, env);
    OutcomeThen(st, c, mid, a, r, t, found);
    trace, block := a + t, found;
    if found.Some? {
      newEstimate := newEstimate - 1;
      offset := BlockOffset(found.value, blocksize, OffsetToData(blocks));
      PositiveOffset(found.value, blocksize, blocks);
    } else {
      offset := 0;
    }
  }
}
