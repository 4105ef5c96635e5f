/** Slices of numbers on an arena (internal/arena/slice/slice.go, Load and Store). */
module ArenaNumbers {
  import opened A = Arena
  import opened ArenaSize
  import opened ArenaSlice
  import opened N = Numbers
  import opened Wire
  import opened Words

  /** The elements of a slice of numbers of elem bytes each. */
  ghost function Elements(mem: seq<byte>, s: Slice, elem: nat): seq<nat>
    requires elem > 0
  {
    Numbers(Contents(mem, s, elem), elem)
  }

  lemma ContentsIn(a: Arena, elem: nat, s: Slice, at: nat)
    requires a.Valid() && elem > 0 && Owns(a.live, at, s, elem)
    ensures |Contents(a.mem[..], s, elem)| == Span(elem, s.len) == s.len * elem
    ensures s.cap > 0 ==> s.ptr + Span(elem, s.len) <= a.mem.Length
                          && a.mem[..][s.ptr..s.ptr + Span(elem, s.len)] == Contents(a.mem[..], s, elem)
  {
    hide SuggestSize;
    SpansFit(a, elem, s, at);
    SpanZero(elem);
  }

  lemma ElementCount(a: Arena, elem: nat, s: Slice, at: nat)
    requires a.Valid() && elem > 0 && Owns(a.live, at, s, elem)
    ensures |Elements(a.mem[..], s, elem)| == s.len
  {
    hide Contents, Arena.Valid, Owns, Span;
    ContentsIn(a, elem, s, at);
    NumbersExact(Contents(a.mem[..], s, elem), elem, s.len);
  }

  lemma NoElements(mem: seq<byte>, s: Slice, elem: nat)
    requires elem > 0 && Contents(mem, s, elem) == []
    ensures Elements(mem, s, elem) == []
  {
  }

  /** Stores a number at the end of a slice with room for it. */
  method StoreNumber(a: Arena, elem: nat, s: Slice, v: nat, ghost at: nat) returns (r: Slice)
    requires a.Valid() && elem > 0 && Owns(a.live, at, s, elem) && s.len < s.cap < TWO32 && v < Limit(elem)
    modifies a.mem
    ensures a.Valid() && r == s.(len := s.len + 1) && Owns(a.live, at, r, elem)
    ensures Elements(a.mem[..], r, elem) == old(Elements(a.mem[..], s, elem)) + [v]
    ensures Steady(a.live, a.live, at, old(a.mem[..]), a.mem[..])
  {
    hide Limit, LittleBytes, Contents, Clean, Steady, Owns, Numbers;
    NumbersMore(Contents(a.mem[..], s, elem), v, elem);
    SpanOne(elem);
    r := Fill(a, elem, s, LittleBytes(v, elem), 1, at);
  }

  lemma SpanOne(elem: nat)
    ensures Span(elem, 1) == elem
  {
  }

  /** Loads element i. */
  method LoadNumber(a: Arena, elem: nat, s: Slice, i: nat, ghost at: nat) returns (v: nat)
    requires a.Valid() && elem > 0 && Owns(a.live, at, s, elem) && i < s.len
    ensures |Elements(a.mem[..], s, elem)| == s.len && v == Elements(a.mem[..], s, elem)[i]
  {
    hide Contents, Numbers, LittleEndian;
    ContentsIn(a, elem, s, at);
    NumberAt(a.mem[..], s.ptr, Contents(a.mem[..], s, elem), elem, s.len, i);
    v := LittleEndian(a.mem[..], s.ptr + i * elem, elem);
  }
}
