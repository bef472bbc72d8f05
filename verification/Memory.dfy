/** The block operations of student-distrib/lib.c on one memory.  Index 0 stands for a multiple-of-four
    address, so an index is dword-aligned exactly when its address is. */
module Memory {
  import opened Bytes

  /** The memory after n bytes from src have been placed at dest. */
  function Copied(m: seq<byte>, dest: nat, src: nat, n: nat): (r: seq<byte>)
    requires dest + n <= |m| && src + n <= |m|
    ensures |r| == |m|
  {
    m[..dest] + m[src..src + n] + m[dest + n..]
  }

  function Filled(m: seq<byte>, dest: nat, c: byte, n: nat): (r: seq<byte>)
    requires dest + n <= |m|
    ensures |r| == |m|
  {
    m[..dest] + Repeat(c, n) + m[dest + n..]
  }

  /** A forward copy reads a byte it has already overwritten when dest lies inside the source. */
  predicate ForwardSafe(dest: nat, src: nat, n: nat)
  {
    !(src < dest < src + n)
  }

  lemma CopiedAt(m: seq<byte>, dest: nat, src: nat, n: nat, j: nat)
    requires dest + n <= |m| && src + n <= |m| && j < |m|
    ensures Copied(m, dest, src, n)[j] == if dest <= j < dest + n then m[src + j - dest] else m[j]
  {
  }

  lemma FilledAt(m: seq<byte>, dest: nat, c: byte, n: nat, j: nat)
    requires dest + n <= |m| && j < |m|
    ensures Filled(m, dest, c, n)[j] == if dest <= j < dest + n then c else m[j]
  {
  }

  /** A forward copy goes wrong exactly when it starts above the source and below its end. */
  lemma ForwardSafeExactly(dest: nat, src: nat, n: nat)
    ensures ForwardSafe(dest, src, n) <==> dest <= src || src + n <= dest
  {
  }

  /** d bytes have been copied forwards and the rest of the source is still as it was. */
  ghost predicate CopyInvariant(m: seq<byte>, was: seq<byte>, dest: nat, src: nat, n: nat, d: nat)
  {
    && d <= n && |m| == |was| && dest + n <= |m| && src + n <= |m|
    && (forall j | 0 <= j < |m| && !(dest <= j < dest + n) :: m[j] == was[j])
    && (ForwardSafe(dest, src, n) ==> m == Copied(was, dest, src, d))
  }

  lemma CopyStep(m: seq<byte>, m': seq<byte>, was: seq<byte>, dest: nat, src: nat, n: nat, d: nat, w: nat)
    requires CopyInvariant(m, was, dest, src, n, d) && d + w <= n
    requires m' == Copied(m, dest + d, src + d, w)
    ensures CopyInvariant(m', was, dest, src, n, d + w)
  {
    hide Copied;
    forall j | 0 <= j < |m|
      ensures !(dest <= j < dest + n) ==> m'[j] == was[j]
      ensures ForwardSafe(dest, src, n) ==> m'[j] == Copied(was, dest, src, d + w)[j]
    {
      CopiedAt(m, dest + d, src + d, w, j);
      CopiedAt(was, dest, src, d + w, j);
      CopiedAt(was, dest, src, d, j);
      if dest + d <= j < dest + d + w {
        CopiedAt(was, dest, src, d, src + j - dest);
      }
    }
  }

  lemma CopyBegins(was: seq<byte>, dest: nat, src: nat, n: nat)
    requires dest + n <= |was| && src + n <= |was|
    ensures CopyInvariant(was, was, dest, src, n, 0)
  {
  }

  lemma CopyEnds(m: seq<byte>, was: seq<byte>, dest: nat, src: nat, n: nat)
    requires CopyInvariant(m, was, dest, src, n, n)
    ensures ForwardSafe(dest, src, n) ==> m == Copied(was, dest, src, n)
    ensures forall j | 0 <= j < |m| && !(dest <= j < dest + n) :: m[j] == was[j]
  {
  }

  method MoveByte(mem: array<byte>, d: nat, s: nat)
    requires d < mem.Length && s < mem.Length
    modifies mem
    ensures mem[..] == Copied(old(mem[..]), d, s, 1)
  {
    ghost var was := mem[..];
    mem[d] := mem[s];
    assert was[s..s + 1] == [was[s]];
  }

  /** One movsl: four bytes are read, then written. */
  method MoveDword(mem: array<byte>, d: nat, s: nat)
    requires d + 4 <= mem.Length && s + 4 <= mem.Length
    modifies mem
    ensures mem[..] == Copied(old(mem[..]), d, s, 4)
  {
    ghost var was := mem[..];
    mem[d], mem[d + 1], mem[d + 2], mem[d + 3] := mem[s], mem[s + 1], mem[s + 2], mem[s + 3];
    hide Copied;
    forall j | 0 <= j < mem.Length ensures mem[..][j] == Copied(was, d, s, 4)[j] {
      CopiedAt(was, d, s, 4, j);
    }
  }

  method Memcpy(mem: array<byte>, dest: nat, src: nat, n: nat)
    requires dest + n <= mem.Length && src + n <= mem.Length
    modifies mem
    ensures ForwardSafe(dest, src, n) ==> mem[..] == Copied(old(mem[..]), dest, src, n)
    ensures forall j | 0 <= j < mem.Length && !(dest <= j < dest + n) :: mem[j] == old(mem[j])
  {
    hide CopyInvariant, Copied;
    ghost var was := mem[..];
    CopyBegins(was, dest, src, n);
    var edi: nat, esi: nat, ecx: nat := dest, src, n;
    while ecx != 0 && edi % 4 != 0
      invariant ecx <= n && edi == dest + (n - ecx) && esi == src + (n - ecx)
      invariant CopyInvariant(mem[..], was, dest, src, n, n - ecx)
    {
      ghost var m := mem[..];
      MoveByte(mem, edi, esi);
      CopyStep(m, mem[..], was, dest, src, n, n - ecx, 1);
      edi, esi, ecx := edi + 1, esi + 1, ecx - 1;
    }
    if ecx == 0 {
      CopyEnds(mem[..], was, dest, src, n);
      return;
    }
    var edx: nat := ecx % 4;
    ecx := ecx / 4;
    while ecx != 0
      invariant 4 * ecx + edx <= n && edi == dest + (n - 4 * ecx - edx) && esi == src + (n - 4 * ecx - edx)
      invariant CopyInvariant(mem[..], was, dest, src, n, n - 4 * ecx - edx)
    {
      ghost var m := mem[..];
      MoveDword(mem, edi, esi);
      CopyStep(m, mem[..], was, dest, src, n, n - 4 * ecx - edx, 4);
      edi, esi, ecx := edi + 4, esi + 4, ecx - 1;
    }
    while edx != 0
      invariant edx <= n && edi == dest + (n - edx) && esi == src + (n - edx)
      invariant CopyInvariant(mem[..], was, dest, src, n, n - edx)
    {
      ghost var m := mem[..];
      MoveByte(mem, edi, esi);
      CopyStep(m, mem[..], was, dest, src, n, n - edx, 1);
      edi, esi, edx := edi + 1, esi + 1, edx - 1;
    }
    CopyEnds(mem[..], was, dest, src, n);
  }

  lemma FillStep(was: seq<byte>, dest: nat, c: byte, n: nat, w: nat)
    requires dest + n + w <= |was|
    ensures Filled(Filled(was, dest, c, n), dest + n, c, w) == Filled(was, dest, c, n + w)
    ensures Filled(was, dest, c, 0) == was
  {
  }

  method StoreByte(mem: array<byte>, d: nat, c: byte)
    requires d < mem.Length
    modifies mem
    ensures mem[..] == Filled(old(mem[..]), d, c, 1)
  {
    mem[d] := c;
  }

  /** One stosl of a byte repeated four times. */
  method StoreDword(mem: array<byte>, d: nat, c: byte)
    requires d + 4 <= mem.Length
    modifies mem
    ensures mem[..] == Filled(old(mem[..]), d, c, 4)
  {
    mem[d], mem[d + 1], mem[d + 2], mem[d + 3] := c, c, c, c;
  }

  method Memset(mem: array<byte>, dest: nat, value: int, n: nat)
    requires dest + n <= mem.Length
    modifies mem
    ensures mem[..] == Filled(old(mem[..]), dest, value % 256, n)
  {
    hide Filled;
    ghost var was := mem[..];
    var c: byte := value % 256;
    FillStep(was, dest, c, 0, 0);
    var edi: nat, ecx: nat := dest, n;
    while ecx != 0 && edi % 4 != 0
      invariant ecx <= n && edi == dest + (n - ecx)
      invariant mem[..] == Filled(was, dest, c, n - ecx)
    {
      StoreByte(mem, edi, c);
      FillStep(was, dest, c, n - ecx, 1);
      edi, ecx := edi + 1, ecx - 1;
    }
    if ecx == 0 { return; }
    var edx: nat := ecx % 4;
    ecx := ecx / 4;
    while ecx != 0
      invariant 4 * ecx + edx <= n && edi == dest + (n - 4 * ecx - edx)
      invariant mem[..] == Filled(was, dest, c, n - 4 * ecx - edx)
    {
      StoreDword(mem, edi, c);
      FillStep(was, dest, c, n - 4 * ecx - edx, 4);
      edi, ecx := edi + 4, ecx - 1;
    }
    while edx != 0
      invariant edx <= n && edi == dest + (n - edx)
      invariant mem[..] == Filled(was, dest, c, n - edx)
    {
      StoreByte(mem, edi, c);
      FillStep(was, dest, c, n - edx, 1);
      edi, edx := edi + 1, edx - 1;
    }
  }

  /** memmove: forwards when the source is not below the destination, backwards otherwise. */
  method Memmove(mem: array<byte>, dest: nat, src: nat, n: nat)
    requires dest + n <= mem.Length && src + n <= mem.Length
    modifies mem
    ensures mem[..] == Copied(old(mem[..]), dest, src, n)
  {
    hide Copied;
    ghost var was := mem[..];
    if src >= dest {
      CopyBegins(was, dest, src, n);
      for i := 0 to n
        invariant CopyInvariant(mem[..], was, dest, src, n, i)
      {
        hide CopyInvariant;
        ghost var m := mem[..];
        MoveByte(mem, dest + i, src + i);
        CopyStep(m, mem[..], was, dest, src, n, i, 1);
      }
    } else {
      CopiedNothing(was, dest + n, src + n);
      var left: nat := n;
      while left != 0
        invariant left <= n
        invariant mem[..] == Copied(was, dest + left, src + left, n - left)
      {
        ghost var m := mem[..];
        left := left - 1;
        MoveByte(mem, dest + left, src + left);
        BackwardStep(m, mem[..], was, dest, src, n, left);
      }
    }
  }

  lemma CopiedNothing(m: seq<byte>, dest: nat, src: nat)
    requires dest <= |m| && src <= |m|
    ensures Copied(m, dest, src, 0) == m
  {
  }

  lemma BackwardStep(m: seq<byte>, m': seq<byte>, was: seq<byte>, dest: nat, src: nat, n: nat, left: nat)
    requires src < dest && dest + n <= |was| && left < n
    requires m == Copied(was, dest + left + 1, src + left + 1, n - left - 1)
    requires m' == Copied(m, dest + left, src + left, 1)
    ensures m' == Copied(was, dest + left, src + left, n - left)
  {
    hide Copied;
    forall j | 0 <= j < |m| ensures m'[j] == Copied(was, dest + left, src + left, n - left)[j] {
      CopiedAt(m, dest + left, src + left, 1, j);
      CopiedAt(was, dest + left, src + left, n - left, j);
      CopiedAt(was, dest + left + 1, src + left + 1, n - left - 1, j);
      CopiedAt(was, dest + left + 1, src + left + 1, n - left - 1, src + left);
    }
  }
}
