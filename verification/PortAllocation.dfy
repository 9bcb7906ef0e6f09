/** The cyclic port allocator. */
module PortAllocation {
  import opened Wrappers
  import opened Permutations

  /** A port range and which of its ports are free. */
  datatype Ports = Ports(base: int, size: nat, available: int -> bool)

  function Following(ps: Ports, offset: nat): (next: nat)
    requires offset < ps.size
    ensures next < ps.size
    ensures next == if offset + 1 == ps.size then 0 else offset + 1
  {
    (offset + 1) % ps.size
  }

  /** The free ports among the next n positions, in cyclic order. */
  function Scan(ps: Ports, offset: nat, n: nat): seq<int>
    requires offset < ps.size
    decreases n
  {
    if n == 0 then []
    else (if ps.available(ps.base + offset) then [ps.base + offset] else []) + Scan(ps, Following(ps, offset), n - 1)
  }

  /** The allocation's probes: the first free port of the next n positions, and the offset left behind. */
  function Probe(ps: Ports, offset: nat, n: nat): (r: (Option<int>, nat))
    requires offset < ps.size
    ensures r.1 < ps.size
    decreases n
  {
    if n == 0 then (None, offset)
    else if ps.available(ps.base + offset) then (Some(ps.base + offset), Following(ps, offset))
    else Probe(ps, Following(ps, offset), n - 1)
  }

  /** The outcomes of m allocations in a row while the availability does not change. */
  function Allocations(ps: Ports, offset: nat, m: nat): seq<Option<int>>
    requires offset < ps.size
    decreases m
  {
    if m == 0 then []
    else var (port, next) := Probe(ps, offset, ps.size); [port] + Allocations(ps, next, m - 1)
  }

  predicate Free(ps: Ports, port: int) {
    ps.base <= port < ps.base + ps.size && ps.available(port)
  }

  // ---------- What a scan sees ----------

  /** Position k after offset, cyclically. */
  function Position(ps: Ports, offset: nat, k: nat): nat
    requires offset < ps.size && k <= ps.size
  {
    if offset + k < ps.size then offset + k else offset + k - ps.size
  }

  lemma {:induction false} ScanContents(ps: Ports, offset: nat, n: nat, port: int)
    requires offset < ps.size && n <= ps.size
    ensures port in Scan(ps, offset, n) <==>
            ps.available(port) && exists k :: 0 <= k < n && port == ps.base + Position(ps, offset, k)
    decreases n
  {
    if n > 0 {
      var next := Following(ps, offset);
      ScanContents(ps, next, n - 1, port);
      assert forall k :: 0 <= k < n - 1 ==> Position(ps, next, k) == Position(ps, offset, k + 1);
      assert Position(ps, offset, 0) == offset;
      if exists k :: 0 <= k < n && port == ps.base + Position(ps, offset, k) {
        var k :| 0 <= k < n && port == ps.base + Position(ps, offset, k);
        assert k > 0 ==> port == ps.base + Position(ps, next, k - 1);
      }
    }
  }

  lemma {:induction false} ScanDistinct(ps: Ports, offset: nat, n: nat)
    requires offset < ps.size && n <= ps.size
    ensures Distinct(Scan(ps, offset, n))
    decreases n
  {
    if n > 0 {
      var next := Following(ps, offset);
      ScanDistinct(ps, next, n - 1);
      ScanContents(ps, next, n - 1, ps.base + offset);
      assert forall k :: 0 <= k < n - 1 ==> Position(ps, next, k) != offset;
    }
  }

  /** A scan of the whole range sees every free port once. */
  lemma FullScan(ps: Ports, offset: nat)
    requires offset < ps.size
    ensures Distinct(Scan(ps, offset, ps.size))
    ensures forall port :: port in Scan(ps, offset, ps.size) <==> Free(ps, port)
  {
    ScanDistinct(ps, offset, ps.size);
    forall port
      ensures port in Scan(ps, offset, ps.size) <==> Free(ps, port)
    {
      ScanContents(ps, offset, ps.size, port);
      if Free(ps, port) {
        var o := port - ps.base;
        var k := if o >= offset then o - offset else o + ps.size - offset;
        assert Position(ps, offset, k) == o;
      }
    }
  }

  // ---------- What allocations return ----------

  lemma {:induction false} ProbeFindsFirst(ps: Ports, offset: nat, n: nat)
    requires offset < ps.size
    ensures Probe(ps, offset, n).0 == if Scan(ps, offset, n) == [] then None else Some(Scan(ps, offset, n)[0])
    decreases n
  {
    if n > 0 && !ps.available(ps.base + offset) {
      ProbeFindsFirst(ps, Following(ps, offset), n - 1);
    }
  }

  /** More room to probe does not change what is found. */
  lemma {:induction false} ProbeFurther(ps: Ports, offset: nat, n: nat)
    requires offset < ps.size && Probe(ps, offset, n).0 != None
    ensures Probe(ps, offset, n + 1) == Probe(ps, offset, n)
    decreases n
  {
    if !ps.available(ps.base + offset) {
      ProbeFurther(ps, Following(ps, offset), n - 1);
    }
  }

  /** An allocation fails exactly when no port in the range is free; what it returns is free. */
  lemma AllocationFailsIffNoneFree(ps: Ports, offset: nat)
    requires offset < ps.size
    ensures Probe(ps, offset, ps.size).0 == None <==> forall port :: !Free(ps, port)
    ensures Probe(ps, offset, ps.size).0 != None ==> Free(ps, Probe(ps, offset, ps.size).0.value)
  {
    ProbeFindsFirst(ps, offset, ps.size);
    FullScan(ps, offset);
    var s := Scan(ps, offset, ps.size);
    assert s != [] ==> s[0] in s && Free(ps, s[0]);
  }

  /** The offset left: behind the port that was found, or where it was when the whole range was probed in vain. */
  lemma OffsetLeft(ps: Ports, offset: nat)
    requires offset < ps.size
    ensures var (port, left) := Probe(ps, offset, ps.size);
            match port
            case None => left == offset
            case Some(p) => left == if p == ps.base + ps.size - 1 then 0 else p - ps.base + 1
  {
    OffsetBehind(ps, offset, ps.size);
  }

  lemma {:induction false} OffsetBehind(ps: Ports, offset: nat, n: nat)
    requires offset < ps.size && n <= ps.size
    ensures var (port, left) := Probe(ps, offset, n);
            match port
            case None => left == if offset + n < ps.size then offset + n else offset + n - ps.size
            case Some(p) => left == if p == ps.base + ps.size - 1 then 0 else p - ps.base + 1
    decreases n
  {
    if n > 0 && !ps.available(ps.base + offset) {
      OffsetBehind(ps, Following(ps, offset), n - 1);
    }
  }

  /** Allocations in a row return the free ports in the order of the scan. */
  lemma {:induction false} AllocationsFollowScan(ps: Ports, offset: nat, n: nat, m: nat)
    requires offset < ps.size && n <= ps.size && m <= |Scan(ps, offset, n)|
    ensures |Allocations(ps, offset, m)| == m
    ensures forall i :: 0 <= i < m ==> Allocations(ps, offset, m)[i] == Some(Scan(ps, offset, n)[i])
    decreases n
  {
    if m > 0 {
      var next := Following(ps, offset);
      if ps.available(ps.base + offset) {
        AllocationsFollowScan(ps, next, n - 1, m - 1);
        assert Scan(ps, offset, n)[1..] == Scan(ps, next, n - 1);
        assert Allocations(ps, offset, m)[1..] == Allocations(ps, next, m - 1);
        assert forall i :: 0 < i < m ==> Allocations(ps, offset, m)[i] == Allocations(ps, next, m - 1)[i - 1];
      } else {
        AllocationsFollowScan(ps, next, n - 1, m);
        SkipTaken(ps, offset, n, m);
      }
    }
  }

  /** Starting at a port that is taken is starting behind it, as long as another port is free. */
  lemma SkipTaken(ps: Ports, offset: nat, n: nat, m: nat)
    requires offset < ps.size && 0 < n <= ps.size && m > 0 && !ps.available(ps.base + offset)
    requires Scan(ps, Following(ps, offset), n - 1) != []
    ensures Allocations(ps, offset, m) == Allocations(ps, Following(ps, offset), m)
  {
    var next := Following(ps, offset);
    ProbeFindsFirst(ps, next, n - 1);
    ProbeUpTo(ps, next, n - 1, ps.size - 1);
    ProbeFurther(ps, next, ps.size - 1);
  }

  lemma {:induction false} ProbeUpTo(ps: Ports, offset: nat, n: nat, n': nat)
    requires offset < ps.size && n <= n' && Probe(ps, offset, n).0 != None
    ensures Probe(ps, offset, n') == Probe(ps, offset, n)
    decreases n' - n
  {
    if n < n' {
      ProbeUpTo(ps, offset, n, n' - 1);
      ProbeFurther(ps, offset, n' - 1);
    }
  }

  /** With m free ports, any m allocations in a row return every free port exactly once, in cyclic order from the offset. */
  lemma EveryFreePortOnce(ps: Ports, offset: nat)
    requires offset < ps.size
    ensures var s := Scan(ps, offset, ps.size);
            && Distinct(s) && (forall port :: port in s <==> Free(ps, port))
            && |Allocations(ps, offset, |s|)| == |s|
            && forall i :: 0 <= i < |s| ==> Allocations(ps, offset, |s|)[i] == Some(s[i])
  {
    FullScan(ps, offset);
    AllocationsFollowScan(ps, offset, ps.size, |Scan(ps, offset, ps.size)|);
  }

  // ---------- The Go struct ----------

  class PortAllocator {
    const base: int
    const size: nat
    var offset: nat

    ghost predicate Valid()
      reads this
    {
      offset < size && 1024 <= base && base + size <= 65536
    }

    constructor (start: int, end: int)
      requires 1024 <= start < end <= 65535
      ensures Valid() && base == start && size == end - start + 1 && offset == 0
    {
      base, size, offset := start, end - start + 1, 0;
    }

    /** Every port of the range is probed at most once, so one function tells what the probes of a call find. */
    method Allocate(available: int -> bool) returns (port: Option<int>)
      requires Valid()
      modifies this
      ensures Valid()
      ensures (port, offset) == Probe(Ports(base, size, available), old(offset), size)
      ensures port == None <==> forall p :: !Free(Ports(base, size, available), p)
      ensures port != None ==> base <= port.value < base + size && available(port.value)
    {
      ghost var ps := Ports(base, size, available);
      AllocationFailsIffNoneFree(ps, offset);
      var times := 0;
      while true
        invariant 0 <= times <= size && Valid()
        invariant Probe(ps, old(offset), size) == Probe(ps, offset, size - times)
        decreases size - times
      {
        if times == size {
          return None;
        }
        var candidate := base + offset;
        ghost var next := Following(ps, offset);
        offset := offset + 1;
        offset := offset % size;
        if available(candidate) {
          return Some(candidate);
        }
        times := times + 1;
      }
    }
  }

  /** NewPortAllocator refuses a range that is not inside 1024 to 65535 or has no two ports. */
  method NewPortAllocator(start: int, end: int) returns (p: PortAllocator?)
    ensures p == null <==> start < 1024 || end > 65535 || start >= end
    ensures p != null ==> fresh(p) && p.Valid() && p.base == start && p.size == end - start + 1 && p.offset == 0
  {
    if start < 1024 || end > 65535 || start >= end {
      return null;
    }
    p := new PortAllocator(start, end);
  }
}
