/**
 The open-addressed table of internal/swiss/table.go, proved to be a finite map.

 Keys of type K are compared and hashed through `extract`, which is the identity for tables
 without an extraction function; X is the type of the extracted key. The hash is an arbitrary
 function: Init draws a new one for every table.
 */
module SwissTable {
  import opened Bits
  import opened Words
  import opened SwissCtrl
  import opened SwissProbe
  import opened Wrappers

  /** The probing part of a hash (hash.h1), as an index. */
  function H1(h: word): nat {
    (h >> 7) as nat
  }

  /** The control byte of a hash (hash.h2): its low seven bits, complemented, under a set sign bit. */
  function H2(h: word): byte {
    !((h & 0x7f) as byte)
  }

  lemma H2SignBit(h: word)
    ensures H2(h) & 0x80 != 0 && H2(h) != EMPTY && H2(h) ^ 1 != EMPTY
  {
  }

  // ----- The layout of a table -----

  /** The first seven control bytes are repeated behind the last. */
  ghost predicate Mirrored(ctrl: seq<byte>, hard: nat) {
    && |ctrl| == hard + CTRL_SIZE && hard >= 8
    && forall s :: 0 <= s < 7 ==> ctrl[hard + s] == ctrl[s]
  }

  /** The window at p has no empty slot. */
  ghost predicate WindowFull(ctrl: seq<byte>, p: nat)
    requires p + 8 <= |ctrl|
  {
    forall s :: p <= s < p + 8 ==> ctrl[s] != EMPTY
  }

  /** Slot s is one of the eight slots from p on, wrapping around. */
  ghost predicate InWindow(s: nat, p: nat, hard: nat) {
    p <= s < p + 8 || p <= s + hard < p + 8
  }

  /** The key with hash h may sit in slot s of its home-th window, everything probed before being full. */
  ghost predicate Placed(h: word, ctrl: seq<byte>, hard: nat, s: nat, home: nat)
    requires |ctrl| == hard + CTRL_SIZE && hard > 0
  {
    && s < hard && home < hard / 8
    && InWindow(s, ProbeAt(H1(h), hard, home), hard)
    && forall j :: 0 <= j < home ==> WindowFull(ctrl, ProbeAt(H1(h), hard, j))
  }

  /** Where each key sits: its slot and the number of its window in the probe sequence. */
  datatype Place = Place(slot: nat, home: nat)

  /** The control bytes and keys represent exactly the keys of `at`, each in one slot. */
  ghost predicate Represents<K, X(!new)>(hash: X -> word, extract: K -> X, hard: nat,
                                         ctrl: seq<byte>, keys: seq<K>, at: map<X, Place>)
    requires |ctrl| == hard + CTRL_SIZE && |keys| == hard && hard > 0
  {
    && (forall x :: x in at ==> at[x].slot < hard && ctrl[at[x].slot] == H2(hash(x)) && extract(keys[at[x].slot]) == x)
    && (forall s :: 0 <= s < hard && ctrl[s] != EMPTY ==> extract(keys[s]) in at && at[extract(keys[s])].slot == s)
    && (forall x :: x in at ==> Placed(hash(x), ctrl, hard, at[x].slot, at[x].home))
  }

  // ----- Facts about a represented table -----

  ghost predicate Taken<X>(at: map<X, Place>, s: nat) {
    exists x :: x in at && at[x].slot == s
  }

  lemma {:induction false} SlotsBound<X>(at: map<X, Place>, n: nat)
    requires forall s :: 0 <= s < n ==> Taken(at, s)
    ensures |at| >= n
    decreases n
  {
    if n > 0 {
      assert Taken(at, n - 1);
      var x :| x in at && at[x].slot == n - 1;
      var rest := map y | y in at && y != x :: at[y];
      assert at.Keys == rest.Keys + {x};
      forall s | 0 <= s < n - 1
        ensures Taken(rest, s)
      {
        assert Taken(at, s);
        var y :| y in at && at[y].slot == s;
        assert y in rest && rest[y].slot == s;
      }
      SlotsBound(rest, n - 1);
    }
  }

  /** With fewer keys than slots, some slot is empty. */
  lemma VacancyExists<K, X(!new)>(hash: X -> word, extract: K -> X, hard: nat, ctrl: seq<byte>, keys: seq<K>,
                                  at: map<X, Place>)
    returns (e: nat)
    requires |ctrl| == hard + CTRL_SIZE && |keys| == hard && hard > 0
    requires Represents(hash, extract, hard, ctrl, keys, at) && |at| < hard
    ensures e < hard && ctrl[e] == EMPTY
  {
    hide Placed, H2;
    if forall s :: 0 <= s < hard ==> ctrl[s] != EMPTY {
      forall s | 0 <= s < hard
        ensures Taken(at, s)
      {
        assert ctrl[s] != EMPTY;
        assert extract(keys[s]) in at;
      }
      SlotsBound(at, hard);
    }
    e :| 0 <= e < hard && ctrl[e] == EMPTY;
  }

  /** Some window among the first hard/8 has an empty slot, so a search cannot run out of windows. */
  lemma VacantWindow(ctrl: seq<byte>, hard: nat, h1: nat, e: nat) returns (j: nat)
    requires IsPow2(hard) && Mirrored(ctrl, hard) && e < hard && ctrl[e] == EMPTY
    ensures j < hard / 8 && !WindowFull(ctrl, ProbeAt(h1, hard, j))
  {
    var d: nat;
    j, d := ProbesCover(h1, hard, e);
    var p := ProbeAt(h1, hard, j);
    if p + d < hard {
      ModUnique(p + d, 0, p + d, hard);
      assert ctrl[p + d] == EMPTY;
    } else {
      ModUnique(p + d, 1, p + d - hard, hard);
      assert ctrl[hard + e] == ctrl[e];
      assert ctrl[p + d] == EMPTY;
    }
  }

  /** Reading the control byte of a slot through any window position gives the slot's byte. */
  lemma WindowByte(ctrl: seq<byte>, hard: nat, s: nat, q: nat)
    requires Mirrored(ctrl, hard) && s < hard && q < hard + 7 && (q == s || q == s + hard)
    ensures ctrl[q] == ctrl[s]
  {
  }

  // ----- Filling a slot -----

  function MirrorIndex(idx: nat, hard: nat): nat
    requires hard >= 8 && idx < hard
  {
    Mask(idx - 7, hard) + Mask(7, hard)
  }

  lemma MirrorIndexExact(idx: nat, hard: nat)
    requires hard >= 8 && idx < hard
    ensures MirrorIndex(idx, hard) == if idx < 7 then hard + idx else idx
  {
    if idx < 7 {
      ModUnique(idx - 7, -1, idx - 7 + hard, hard);
    } else {
      ModUnique(idx - 7, 0, idx - 7, hard);
    }
    ModUnique(7, 0, 7, hard);
  }

  function Filled(ctrl: seq<byte>, hard: nat, s: nat, b: byte): (r: seq<byte>)
    requires hard >= 8 && |ctrl| == hard + CTRL_SIZE && s < hard
    ensures |r| == |ctrl|
  {
    if s < 7 then ctrl[s := b][hard + s := b] else ctrl[s := b]
  }

  lemma FilledKeepsMirror(ctrl: seq<byte>, hard: nat, s: nat, b: byte)
    requires Mirrored(ctrl, hard) && s < hard
    ensures Mirrored(Filled(ctrl, hard, s, b), hard)
  {
  }

  lemma FilledKeepsFull(ctrl: seq<byte>, hard: nat, s: nat, b: byte, p: nat)
    requires hard >= 8 && |ctrl| == hard + CTRL_SIZE && s < hard && b != EMPTY && p + 8 <= |ctrl|
    requires WindowFull(ctrl, p)
    ensures WindowFull(Filled(ctrl, hard, s, b), p)
  {
  }

  lemma FilledKeepsPlaced(h: word, ctrl: seq<byte>, hard: nat, s: nat, home: nat, t: nat, b: byte)
    requires hard >= 8 && |ctrl| == hard + CTRL_SIZE && t < hard && b != EMPTY
    requires Placed(h, ctrl, hard, s, home)
    ensures Placed(h, Filled(ctrl, hard, t, b), hard, s, home)
  {
    hide H1, Filled, WindowFull, InWindow;
    forall j | 0 <= j < home
      ensures WindowFull(Filled(ctrl, hard, t, b), ProbeAt(H1(h), hard, j))
    {
      FilledKeepsFull(ctrl, hard, t, b, ProbeAt(H1(h), hard, j));
    }
  }

  /** Writing a new key into an empty slot of its first window with a vacancy adds exactly that key. */
  lemma FillRepresents<K, X(!new)>(hash: X -> word, extract: K -> X, hard: nat, ctrl: seq<byte>, keys: seq<K>,
                                   at: map<X, Place>, k: K, s: nat, home: nat)
    requires hard >= 8 && |ctrl| == hard + CTRL_SIZE && |keys| == hard
    requires Represents(hash, extract, hard, ctrl, keys, at)
    requires extract(k) !in at && s < hard && ctrl[s] == EMPTY
    requires Placed(hash(extract(k)), ctrl, hard, s, home)
    ensures Represents(hash, extract, hard, Filled(ctrl, hard, s, H2(hash(extract(k)))), keys[s := k],
                       at[extract(k) := Place(s, home)])
  {
    hide Placed, H2;
    var x := extract(k);
    var b := H2(hash(x));
    forall y
      ensures H2(hash(y)) != EMPTY
    {
      H2SignBit(hash(y));
    }
    var ctrl', keys', at' := Filled(ctrl, hard, s, b), keys[s := k], at[x := Place(s, home)];
    forall y | y in at'
      ensures Placed(hash(y), ctrl', hard, at'[y].slot, at'[y].home)
    {
      FilledKeepsPlaced(hash(y), ctrl, hard, at'[y].slot, at'[y].home, s, b);
    }
  }

  // ----- Searching -----

  /** A key whose window is the j-th sits in one of its slots, under a flagged control byte. */
  lemma KeyIsFlagged<K, X(!new)>(hash: X -> word, extract: K -> X, hard: nat, ctrl: seq<byte>, keys: seq<K>,
                                 at: map<X, Place>, x: X, i: nat)
    requires Mirrored(ctrl, hard) && |keys| == hard
    requires Represents(hash, extract, hard, ctrl, keys, at) && x in at && i < 8
    requires var p := ProbeAt(H1(hash(x)), hard, at[x].home);
             p + i == at[x].slot || p + i == at[x].slot + hard
    ensures Flagged(Matches(Load(ctrl, ProbeAt(H1(hash(x)), hard, at[x].home)), Broadcast(H2(hash(x)))), i)
  {
    hide Flagged, Matches, Load, Broadcast, H1, H2;
    var p := ProbeAt(H1(hash(x)), hard, at[x].home);
    WindowMatches(ctrl, p, H2(hash(x)), i);
    WindowByte(ctrl, hard, at[x].slot, p + i);
  }

  /** A flagged slot is occupied, although the match may flag a byte that differs from the needle. */
  lemma FlaggedIsOccupied(ctrl: seq<byte>, hard: nat, h: word, p: nat, i: nat, s: nat)
    requires Mirrored(ctrl, hard) && p < hard && i < 8 && s < hard && (p + i == s || p + i == s + hard)
    requires Flagged(Matches(Load(ctrl, p), Broadcast(H2(h))), i)
    ensures ctrl[s] != EMPTY
  {
    hide Flagged, Matches, Load, Broadcast, H2;
    WindowMatches(ctrl, p, H2(h), i);
    WindowByte(ctrl, hard, s, p + i);
    H2SignBit(h);
  }

  /** The first empty byte of a window is an empty slot of the window; without one the window is full. */
  lemma FirstVacancy(ctrl: seq<byte>, hard: nat, p: nat)
    requires Mirrored(ctrl, hard) && p < hard
    ensures var d := First(Load(ctrl, p), Broadcast(EMPTY));
            if d < CTRL_SIZE then
              && Mask(p + d, hard) < hard && ctrl[Mask(p + d, hard)] == EMPTY
              && InWindow(Mask(p + d, hard), p, hard) && !WindowFull(ctrl, p)
            else WindowFull(ctrl, p)
  {
    hide Load, Broadcast, First;
    FirstExact(ctrl, p, EMPTY);
    var d := First(Load(ctrl, p), Broadcast(EMPTY));
    if d < CTRL_SIZE {
      assert ctrl[p + d] == EMPTY;
      WrapIndex(p + d, hard);
    }
  }

  lemma WrapIndex(q: nat, hard: nat)
    requires hard > 0 && q < 2 * hard
    ensures Mask(q, hard) == if q < hard then q else q - hard
  {
    if q < hard {
      ModUnique(q, 0, q, hard);
    } else {
      ModUnique(q, 1, q - hard, hard);
    }
  }

  /** A key all of whose windows up to `window` are ruled out is absent if that window has a vacancy. */
  lemma AbsentAtVacancy(h: word, ctrl: seq<byte>, hard: nat, s: nat, home: nat, window: nat)
    requires |ctrl| == hard + CTRL_SIZE && hard > 0
    requires Placed(h, ctrl, hard, s, home)
    requires !WindowFull(ctrl, ProbeAt(H1(h), hard, window))
    ensures home <= window
  {
  }

  lemma PlacedHere(h: word, ctrl: seq<byte>, hard: nat, s: nat, window: nat)
    requires |ctrl| == hard + CTRL_SIZE && s < hard && window < hard / 8
    requires InWindow(s, ProbeAt(H1(h), hard, window), hard)
    requires forall j :: 0 <= j < window ==> WindowFull(ctrl, ProbeAt(H1(h), hard, j))
    ensures Placed(h, ctrl, hard, s, window)
  {
  }

  lemma ProbeStart(h1: nat, hard: nat)
    requires hard > 0
    ensures ProbeAt(h1, hard, 0) == Mask(h1, hard)
  {
  }

  lemma SlotOfOther<K, X(!new)>(hash: X -> word, extract: K -> X, hard: nat, ctrl: seq<byte>, keys: seq<K>,
                                at: map<X, Place>)
    requires |ctrl| == hard + CTRL_SIZE && |keys| == hard && hard > 0
    requires Represents(hash, extract, hard, ctrl, keys, at)
    ensures forall x :: x in at ==> at[x].slot < hard
    ensures forall x, y :: x in at && y in at && x != y ==> at[x].slot != at[y].slot
  {
    hide Placed, H2;
  }

  lemma OccupiedSlot<K, X(!new)>(hash: X -> word, extract: K -> X, hard: nat, ctrl: seq<byte>, keys: seq<K>,
                                 at: map<X, Place>, s: nat)
    requires |ctrl| == hard + CTRL_SIZE && |keys| == hard && s < hard
    requires Represents(hash, extract, hard, ctrl, keys, at) && ctrl[s] != EMPTY
    ensures extract(keys[s]) in at && at[extract(keys[s])].slot == s
  {
    hide Placed, H2;
  }

  lemma KeyInWindow<K, X(!new)>(hash: X -> word, extract: K -> X, hard: nat, ctrl: seq<byte>, keys: seq<K>,
                                at: map<X, Place>, x: X)
    requires |ctrl| == hard + CTRL_SIZE && |keys| == hard && hard >= 8
    requires Represents(hash, extract, hard, ctrl, keys, at) && x in at
    ensures at[x].slot < hard && extract(keys[at[x].slot]) == x
    ensures Placed(hash(x), ctrl, hard, at[x].slot, at[x].home)
    ensures var p := ProbeAt(H1(hash(x)), hard, at[x].home);
            p <= (if at[x].slot < p then at[x].slot + hard else at[x].slot) < p + CTRL_SIZE
  {
    hide H1, H2;
    assert Placed(hash(x), ctrl, hard, at[x].slot, at[x].home);
  }

  /** The low bytes of mask are those of matches from byte j on. */
  ghost predicate RotatedTo(mask: word, matches: word, j: nat) {
    j <= 8 && forall i :: 0 <= i < 8 - j ==> Flagged(mask, i) == Flagged(matches, i + j)
  }

  lemma RotatedNone(matches: word)
    ensures RotatedTo(matches, matches, 0)
  {
    hide Flagged;
  }

  lemma RotatedNext(mask: word, matches: word, j: nat)
    requires RotatedTo(mask, matches, j) && j < 8
    ensures Next(mask).1 == Flagged(matches, j)
    ensures RotatedTo(Next(mask).0, matches, j + 1)
  {
    hide Byte, Next;
    NextByte(mask, 0);
    forall i | 0 <= i < 7 - j
      ensures Flagged(Next(mask).0, i) == Flagged(matches, i + j + 1)
    {
      NextByte(mask, i);
      assert Flagged(mask, i + 1) == Flagged(matches, i + 1 + j);
    }
  }

  // ----- Walking the slots in order -----

  /** The places of the keys in slots below n. */
  ghost function Below<X>(at: map<X, Place>, n: nat): map<X, Place> {
    map x | x in at && at[x].slot < n :: at[x]
  }

  /** Stepping over slot n picks up exactly its key, if it has one. */
  lemma BelowStep<K, X(!new)>(hash: X -> word, extract: K -> X, hard: nat, ctrl: seq<byte>, keys: seq<K>,
                              at: map<X, Place>, n: nat)
    requires |ctrl| == hard + CTRL_SIZE && |keys| == hard && n < hard
    requires Represents(hash, extract, hard, ctrl, keys, at)
    ensures ctrl[n] == EMPTY ==> Below(at, n + 1) == Below(at, n)
    ensures ctrl[n] != EMPTY ==>
              var x := extract(keys[n]);
              && x in at && at[x].slot == n && x !in Below(at, n)
              && Below(at, n + 1) == Below(at, n)[x := at[x]]
  {
    hide Placed, H2;
    forall x | x in at && at[x].slot == n
      ensures ctrl[n] != EMPTY && x == extract(keys[n])
    {
      H2SignBit(hash(x));
    }
  }

  lemma BelowAll<X>(at: map<X, Place>, n: nat)
    ensures (forall x :: x in at ==> at[x].slot < n) ==> Below(at, n) == at
    ensures |Below(at, n)| <= |at|
    ensures |Below(at, n)| == |at| ==> Below(at, n) == at
  {
    SubsetSize(Below(at, n).Keys, at.Keys);
    if |Below(at, n)| == |at| {
      SubsetSameSize(Below(at, n).Keys, at.Keys);
    }
  }

  /** Byte j of the i-th control word is flagged iff slot 8 * i + j is occupied. */
  lemma WordSlot(ctrl: seq<byte>, i: nat, j: nat)
    requires 8 * i + 8 <= |ctrl| && j < 8
    ensures Flagged(Load(ctrl, 8 * i), j) <==> ctrl[8 * i + j] != EMPTY
  {
    hide Byte, Load;
    LoadByte(ctrl, 8 * i, j);
  }

  lemma BelowNone<X>(at: map<X, Place>)
    ensures Below(at, 0) == map[]
  {
  }

  /** The entries in slots below n, in slot order. */
  function Entries<K, V>(ctrl: seq<byte>, keys: seq<K>, values: seq<V>, n: nat): seq<(K, V)>
    requires n <= |ctrl| && n <= |keys| && n <= |values|
  {
    if n == 0 then []
    else if ctrl[n - 1] == EMPTY then Entries(ctrl, keys, values, n - 1)
    else Entries(ctrl, keys, values, n - 1) + [(keys[n - 1], values[n - 1])]
  }

  lemma EntriesNone<K, V>(ctrl: seq<byte>, keys: seq<K>, values: seq<V>)
    ensures Entries(ctrl, keys, values, 0) == []
  {
  }

  lemma EntriesNext<K, V>(ctrl: seq<byte>, keys: seq<K>, values: seq<V>, n: nat)
    requires n < |ctrl| && n < |keys| && n < |values|
    ensures Entries(ctrl, keys, values, n + 1) ==
            Entries(ctrl, keys, values, n) + if ctrl[n] == EMPTY then [] else [(keys[n], values[n])]
  {
  }

  /** Entries lists each key below n once, with its value. */
  lemma {:induction false} EntriesExact<K, X(!new), V>(hash: X -> word, extract: K -> X, hard: nat, ctrl: seq<byte>,
                                                       keys: seq<K>, values: seq<V>, at: map<X, Place>, n: nat)
    requires |ctrl| == hard + CTRL_SIZE && |keys| == hard && |values| == hard && hard > 0 && n <= hard
    requires Represents(hash, extract, hard, ctrl, keys, at)
    ensures var r := Entries(ctrl, keys, values, n);
            && |r| == |Below(at, n)|
            && (forall i :: 0 <= i < |r| ==> extract(r[i].0) in Below(at, n))
            && (forall i :: 0 <= i < |r| ==>
               at[extract(r[i].0)].slot < hard && values[at[extract(r[i].0)].slot] == r[i].1)
            && (forall i, j :: 0 <= i < j < |r| ==> extract(r[i].0) != extract(r[j].0))
    decreases n
  {
    hide Represents;
    BelowNone(at);
    if n > 0 {
      EntriesExact(hash, extract, hard, ctrl, keys, values, at, n - 1);
      BelowStep(hash, extract, hard, ctrl, keys, at, n - 1);
    }
  }

  /** Rotates through the i-th control word; flags[j] tells whether slot 8 * i + j is occupied. */
  method OccupiedSlots(ctrl: seq<byte>, i: nat) returns (flags: seq<bool>)
    requires 8 * i + 8 <= |ctrl|
    ensures |flags| == 8
    ensures forall s :: 8 * i <= s < 8 * i + 8 ==> (flags[s - 8 * i] <==> ctrl[s] != EMPTY)
  {
    hide Next, Load, Flagged, RotatedTo;
    var word := Load(ctrl, 8 * i);
    ghost var word0 := word;
    flags := [];
    RotatedNone(word);
    for j := 0 to CTRL_SIZE
      invariant RotatedTo(word, word0, j) && |flags| == j
      invariant forall s :: 8 * i <= s < 8 * i + j ==> (flags[s - 8 * i] <==> ctrl[s] != EMPTY)
    {
      var (next, ok) := Next(word);
      RotatedNext(word, word0, j);
      WordSlot(ctrl, i, j);
      word := next;
      flags := flags + [ok];
    }
  }

  lemma HardWords(hard: nat)
    requires IsPow2(hard) && hard >= 8
    ensures hard % 8 == 0
  {
    var k: nat :| hard == Pow2(k);
    Pow2Divides8(k);
  }

  /** The loop of All over the slots of a table: it stops once as many entries were seen as the table holds. */
  method Walk<K, V>(ctrl: seq<byte>, keys: seq<K>, values: seq<V>, hard: nat, len: nat)
    returns (r: seq<(K, V)>, ghost n: nat)
    requires |ctrl| == hard + CTRL_SIZE && |keys| == |values| == hard && hard % 8 == 0
    ensures n <= hard && r == Entries(ctrl, keys, values, n)
    ensures |r| == len || n == hard
  {
    hide Entries;
    r, n := [], 0;
    EntriesNone(ctrl, keys, values);
    if len == 0 {
      return;
    }
    var left: int := len;
    for i := 0 to hard / 8
      invariant n == 8 * i && r == Entries(ctrl, keys, values, n) && left == len - |r|
    {
      var flags := OccupiedSlots(ctrl, i);
      for j := 0 to 8
        invariant n == 8 * i + j && r == Entries(ctrl, keys, values, n) && left == len - |r|
      {
        EntriesNext(ctrl, keys, values, n);
        n := n + 1;
        if flags[j] {
          var slot := 8 * i + j;
          left := left - 1;
          r := r + [(keys[slot], values[slot])];
          if left == 0 {
            return;
          }
        }
      }
    }
  }

  class Table<K(0), X(==,!new), V(0)> {
    const hash: X -> word
    const extract: K -> X
    var len: nat
    var soft: nat
    var hard: nat
    var ctrl: array<byte>
    var keys: array<K>
    var values: array<V>
    ghost var at: map<X, Place>

    ghost predicate Valid()
      reads this, ctrl, keys, values
    {
      && Shape()
      && Mirrored(ctrl[..], hard)
      && Represents(hash, extract, hard, ctrl[..], keys[..], at)
      && len == |at| <= soft
    }

    ghost predicate Shape()
      reads this
    {
      && IsPow2(hard) && hard >= 8 && 8 * soft == 7 * hard
      && ctrl.Length == hard + CTRL_SIZE && keys.Length == hard && values.Length == hard
      && (keys as object) != values && (ctrl as object) != keys && (ctrl as object) != values
    }

    /** The finite map the table stands for. */
    ghost function View(): map<X, V>
      requires Valid()
      reads this, ctrl, keys, values
    {
      map x | x in at :: values[at[x].slot]
    }

    /** An empty table with room for len entries, over zeroed control bytes and under any hash. */
    constructor (len: nat, hash: X -> word, extract: K -> X)
      requires len <= MAX_ENTRIES
      ensures Valid() && fresh(ctrl) && fresh(keys) && fresh(values)
      ensures this.hash == hash && this.extract == extract
      ensures at == map[] && this.len == 0 && (soft, hard) == LoadFactor(len)
    {
      var (soft, hard) := LoadFactor(len);
      LoadFactorExact(len);
      this.hash, this.extract := hash, extract;
      this.len, this.soft, this.hard := 0, soft, hard;
      ctrl := new byte[hard + CTRL_SIZE](_ => EMPTY);
      keys := new K[hard];
      values := new V[hard];
      at := map[];
    }

    /** The slot of x, or the empty slot where x belongs. */
    method Search(x: X) returns (idx: nat, occupied: bool, ghost window: nat)
      requires Valid()
      ensures idx < hard
      ensures occupied <==> x in at
      ensures occupied ==> at[x].slot == idx
      ensures !occupied ==> ctrl[idx] == EMPTY && Placed(hash(x), ctrl[..], hard, idx, window)
    {
      hide Matches, Load, Broadcast, Flagged, First, H1, H2, Placed, IsPow2, Represents, Mirrored, WindowFull, ProbeAt;
      hide Mask;
      if x in at {
        KeyInWindow(hash, extract, hard, ctrl[..], keys[..], at, x);
      }
      ghost var c := ctrl[..];
      ghost var e := VacancyExists(hash, extract, hard, c, keys[..], at);
      ghost var last := VacantWindow(c, hard, H1(hash(x)), e);
      var h2 := Broadcast(H2(hash(x)));
      var empty := Broadcast(EMPTY);
      var i, h1 := 0, Mask(H1(hash(x)), hard);
      window := 0;
      ProbeStart(H1(hash(x)), hard);
      while true
        invariant window <= last
        invariant i == 8 * window && h1 == ProbeAt(H1(hash(x)), hard, window) < hard
        invariant forall j :: 0 <= j < window ==> WindowFull(c, ProbeAt(H1(hash(x)), hard, j))
        invariant x in at ==> at[x].home >= window
        decreases last - window
      {
        // prober.next
        var p := h1;
        var word := Load(ctrl[..], p);
        ProbeStep(H1(hash(x)), hard, window);
        i := i + CTRL_SIZE;
        h1 := Mask(h1 + i, hard);

        var found, n := CheckHits(x, p, Matches(word, h2), window);
        if found {
          return n, true, window;
        }

        FirstVacancy(c, hard, p);
        var j := First(word, empty);
        if j < CTRL_SIZE {
          if x in at {
            AbsentAtVacancy(hash(x), c, hard, at[x].slot, at[x].home, window);
          }
          PlacedHere(hash(x), c, hard, Mask(p + j, hard), window);
          return Mask(p + j, hard), false, window;
        }
        window := window + 1;
      }
    }

    /** Compares x with the key of every flagged slot of the window at p. */
    method CheckHits(x: X, p: nat, matches: word, ghost window: nat) returns (found: bool, idx: nat)
      requires Valid()
      requires p < hard && p == ProbeAt(H1(hash(x)), hard, window)
      requires matches == Matches(Load(ctrl[..], p), Broadcast(H2(hash(x))))
      ensures found ==> idx < hard && x in at && at[x].slot == idx
      ensures !found ==> x in at ==> at[x].home != window
    {
      hide Matches, Load, Broadcast, Flagged, H1, H2, Next, Mask, Placed, IsPow2, Represents, Mirrored, RotatedTo;
      RotatedNone(matches);
      if x in at {
        KeyInWindow(hash, extract, hard, ctrl[..], keys[..], at, x);
      }
      var mask, n := matches, p;
      for j := 0 to CTRL_SIZE
        invariant n == p + j || n == p + j - hard
        invariant n >= 0
        invariant RotatedTo(mask, matches, j)
        invariant x in at && at[x].home == window ==>
                    p + j <= (if at[x].slot < p then at[x].slot + hard else at[x].slot) < p + CTRL_SIZE
      {
        var (next, eq) := Next(mask);
        RotatedNext(mask, matches, j);
        WrapIndex(p + j, hard);
        if x in at && at[x].home == window && (p + j == at[x].slot || p + j == at[x].slot + hard) {
          KeyIsFlagged(hash, extract, hard, ctrl[..], keys[..], at, x, j);
        }
        if eq {
          WrapIndex(n, hard);
          n := Mask(n, hard);
          FlaggedIsOccupied(ctrl[..], hard, hash(x), p, j, n);
          OccupiedSlot(hash, extract, hard, ctrl[..], keys[..], at, n);
          if extract(keys[n]) == x {
            return true, n;
          }
        }
        mask := next;
        n := n + 1;
      }
      return false, 0;
    }

    /** Lookup and LookupFunc. */
    method Lookup(x: X) returns (r: Option<V>)
      requires Valid()
      ensures r == if x in View() then Some(View()[x]) else None
    {
      var idx, occupied, _ := Search(x);
      r := if occupied then Some(values[idx]) else None;
    }

    /** Writes key k into the empty slot idx of its window. */
    method Fill(k: K, idx: nat, ghost window: nat)
      requires Valid() && len < soft && idx < hard
      requires extract(k) !in at && ctrl[idx] == EMPTY
      requires Placed(hash(extract(k)), ctrl[..], hard, idx, window)
      modifies this`len, this`at, ctrl, keys
      ensures Valid()
      ensures at == old(at)[extract(k) := Place(idx, window)] && len == old(len) + 1
      ensures keys[..] == old(keys[..])[idx := k]
      ensures ctrl[..] == Filled(old(ctrl[..]), hard, idx, H2(hash(extract(k))))
    {
      hide H2, Placed, IsPow2, Represents, Mirrored;
      var b := H2(hash(extract(k)));
      FillRepresents(hash, extract, hard, ctrl[..], keys[..], at, k, idx, window);
      FilledKeepsMirror(ctrl[..], hard, idx, b);
      MirrorIndexExact(idx, hard);
      ctrl[idx] := b;
      ctrl[MirrorIndex(idx, hard)] := b;
      keys[idx] := k;
      len := len + 1;
      at := at[extract(k) := Place(idx, window)];
      assert ctrl[..] == Filled(old(ctrl[..]), hard, idx, b);
      assert keys[..] == old(keys[..])[idx := k];
    }

    /** The slot for k, new or existing; refuses when the table is at its soft cap. */
    method Insert(k: K) returns (ok: bool, idx: nat)
      requires Valid()
      modifies this`len, this`at, ctrl, keys
      ensures Valid()
      ensures ok <==> old(len) < soft
      ensures !ok ==> at == old(at) && len == old(len) && keys[..] == old(keys[..])
      ensures ok ==> idx < hard && at.Keys == old(at.Keys) + {extract(k)} && at[extract(k)].slot == idx
      ensures len == if !ok || extract(k) in old(at) then old(len) else old(len) + 1
      ensures ok ==> forall x :: x in old(at) ==> at[x] == old(at[x])
      ensures ok ==> View() == old(View())[extract(k) := values[idx]]
    {
      hide Placed, IsPow2, Represents, Mirrored, Filled;
      if len == soft {
        return false, 0;
      }
      var occupied;
      ghost var window;
      idx, occupied, window := Search(extract(k));
      if !occupied {
        Fill(k, idx, window);
      }
      ok := true;
      SlotOfOther(hash, extract, hard, ctrl[..], keys[..], at);
    }

    /** A store through the pointer that Insert returns. */
    method SetValue(ghost x: X, idx: nat, v: V)
      requires Valid() && x in at && at[x].slot == idx < hard
      modifies values
      ensures Valid() && at == old(at) && View() == old(View())[x := v]
    {
      hide Placed, IsPow2, Represents, Mirrored;
      SlotOfOther(hash, extract, hard, ctrl[..], keys[..], at);
      values[idx] := v;
    }

    /** The entries that All ranges over, in slot order. */
    method All() returns (r: seq<(K, V)>)
      requires Valid()
      ensures |r| == |View()|
      ensures forall i :: 0 <= i < |r| ==> extract(r[i].0) in View() && View()[extract(r[i].0)] == r[i].1
      ensures forall i, j :: 0 <= i < j < |r| ==> extract(r[i].0) != extract(r[j].0)
    {
      hide Represents, Placed, IsPow2, Mirrored, Below;
      ghost var n;
      HardWords(hard);
      r, n := Walk(ctrl[..], keys[..], values[..], hard, len);
      SlotOfOther(hash, extract, hard, ctrl[..], keys[..], at);
      assert View().Keys == at.Keys;
      EntriesExact(hash, extract, hard, ctrl[..], keys[..], values[..], at, n);
      BelowAll(at, n);
    }

    /** Copies one entry whose key is new; the loop body of Init. */
    method CopyEntry(k: K, v: V)
      requires Valid() && len < soft && extract(k) !in at
      modifies this`len, this`at, ctrl, keys, values
      ensures Valid() && len == old(len) + 1
      ensures View() == old(View())[extract(k) := v]
    {
      hide Represents, Placed, IsPow2, Mirrored, Filled;
      var idx, occupied, window := Search(extract(k));
      Fill(k, idx, window);
      SlotOfOther(hash, extract, hard, ctrl[..], keys[..], at);
      values[idx] := v;
    }

    /** The entries of a table with keys at `places` and contents `view` are copied up to slot n. */
    ghost predicate CopiedTo(places: map<X, Place>, view: map<X, V>, n: nat)
      reads this, ctrl, keys, values
    {
      Valid() && len == |Below(places, n)| && View() == Restrict(view, Below(places, n).Keys)
    }

    /** Copies the entries of another table, of which there must be no more than fit; the end of Init. */
    method CopyFrom(from: Table<K, X, V>)
      requires Valid() && at == map[] && from.Valid() && from.len <= soft && from.extract == extract
      modifies this`len, this`at, ctrl, keys, values
      ensures Valid() && View() == old(from.View())
    {
      hide Represents, Placed, IsPow2, Mirrored, Below;
      SlotOfOther(from.hash, extract, from.hard, from.ctrl[..], from.keys[..], from.at);
      CopyBounds(from.View(), from.at, 0);
      assert View() == map[];
      if from.len == 0 {
        return;
      }
      CopySlots(from.hash, from.hard, from.ctrl[..], from.keys[..], from.values[..], from.len, from.at, from.View());
    }

    /** The loop of Init over the control words of the smaller table. */
    method CopySlots(ghost hash1: X -> word, hard1: nat, ctrl1: seq<byte>, keys1: seq<K>, values1: seq<V>, len1: nat,
                     ghost places: map<X, Place>, ghost view: map<X, V>)
      requires |ctrl1| == hard1 + CTRL_SIZE && |keys1| == |values1| == hard1 && hard1 > 0 && hard1 % 8 == 0
      requires Represents(hash1, extract, hard1, ctrl1, keys1, places)
      requires forall x :: x in places ==> places[x].slot < hard1
      requires view.Keys == places.Keys && forall x :: x in places ==> view[x] == values1[places[x].slot]
      requires CopiedTo(places, view, 0) && len == 0 < len1 <= soft && len1 == |places|
      modifies this`len, this`at, ctrl, keys, values
      ensures Valid() && View() == view
    {
      hide Valid, View, CopiedTo, Represents, Below, Restrict;
      for i := 0 to hard1 / CTRL_SIZE
        invariant CopiedTo(places, view, 8 * i) && len < len1 <= soft
      {
        var flags := OccupiedSlots(ctrl1, i);
        for j := 0 to CTRL_SIZE
          invariant CopiedTo(places, view, 8 * i + j) && len < len1 <= soft
        {
          var n := 8 * i + j;
          CopySlot(hash1, hard1, ctrl1, keys1[n], values1[n], flags[j], n, keys1, places, view);
          if len == len1 {
            CopyComplete(hard1, places, view, n + 1);
            return;
          }
        }
      }
      CopyComplete(hard1, places, view, hard1);
    }

    /** Moves past slot n of the other table, copying its entry if it has one. */
    method CopySlot(ghost hash1: X -> word, ghost hard1: nat, ghost ctrl1: seq<byte>, k: K, v: V, occupied: bool,
                    ghost n: nat, ghost keys1: seq<K>, ghost places: map<X, Place>, ghost view: map<X, V>)
      requires |ctrl1| == hard1 + CTRL_SIZE && |keys1| == hard1 && n < hard1 && k == keys1[n]
      requires Represents(hash1, extract, hard1, ctrl1, keys1, places)
      requires view.Keys == places.Keys && forall x :: x in places && places[x].slot == n ==> view[x] == v
      requires occupied == (ctrl1[n] != EMPTY)
      requires CopiedTo(places, view, n) && len < |places| <= soft
      modifies this`len, this`at, ctrl, keys, values
      ensures CopiedTo(places, view, n + 1) && len <= |places|
    {
      hide Represents, Placed, IsPow2, Mirrored, Below;
      BelowStep(hash1, extract, hard1, ctrl1, keys1, places, n);
      BelowAll(places, n + 1);
      if occupied {
        assert at.Keys == View().Keys;
        CopyEntry(k, v);
      }
    }

    /** A copy that has come to the last slot, or to the size of the original, is complete. */
    lemma CopyComplete(hard1: nat, places: map<X, Place>, view: map<X, V>, n: nat)
      requires CopiedTo(places, view, n) && view.Keys == places.Keys
      requires forall x :: x in places ==> places[x].slot < hard1
      requires n == hard1 || len == |places|
      ensures Valid() && View() == view && len == |places|
    {
      hide Represents, Placed, IsPow2, Mirrored, Below;
      CopyBounds(view, places, n);
    }
  }

  lemma CopyBounds<X, V>(view: map<X, V>, places: map<X, Place>, n: nat)
    requires view.Keys == places.Keys
    ensures |Below(places, n)| <= |places|
    ensures |Below(places, n)| == |places| ==> Restrict(view, Below(places, n).Keys) == view
    ensures (forall x :: x in places ==> places[x].slot < n) ==> |Below(places, n)| == |places|
    ensures n == 0 ==> Below(places, n) == map[] && Restrict(view, Below(places, n).Keys) == map[]
  {
    BelowAll(places, n);
  }

  ghost function Restrict<X, V>(m: map<X, V>, s: set<X>): map<X, V> {
    map x | x in m && x in s :: m[x]
  }
}
