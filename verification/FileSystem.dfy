/** The file image reader of student-distrib/filesys.c: lookup by name and index, block-resolved reads and
    directory enumeration. */
module FileSystem {
  import opened Bytes

  const NAME_LEN := 32
  const BLOCK := 4096
  const BLOCKS_PER_INODE := 1023

  datatype Dentry = Dentry(fname: seq<byte>, fileType: int, inode: nat)
  datatype Inode = Inode(len: nat, dblocks: seq<nat>)
  datatype Image = Image(entries: seq<Dentry>, inodes: seq<Inode>, blocks: seq<seq<byte>>)

  const NO_DENTRY := Dentry(Repeat(NUL, NAME_LEN), 0, 0)

  ghost predicate ImageOk(m: Image)
  {
    && (forall k | 0 <= k < |m.entries| :: |m.entries[k].fname| == NAME_LEN)
    && (forall k | 0 <= k < |m.inodes| :: |m.inodes[k].dblocks| == BLOCKS_PER_INODE)
    && forall k | 0 <= k < |m.blocks| :: |m.blocks[k]| == BLOCK
  }

  // ----- Names.

  /** The string in a name field: up to its first NUL, or all of it. */
  function NameOf(field: seq<byte>): seq<byte>
  {
    field[..StringEnd(field, 0)]
  }

  function NamePadded(name: seq<byte>): (r: seq<byte>)
    requires |name| <= NAME_LEN
    ensures |r| == NAME_LEN
  {
    name + Repeat(NUL, NAME_LEN - |name|)
  }

  lemma PaddedName(field: seq<byte>)
    requires |field| == NAME_LEN
    ensures |NameOf(field)| <= NAME_LEN && NameOf(NamePadded(NameOf(field))) == NameOf(field)
  {
    StringEndIs(NamePadded(NameOf(field)), |NameOf(field)|);
  }

  lemma StringEndIs(s: seq<byte>, e: nat)
    requires e <= |s| && (forall j | 0 <= j < e :: s[j] != NUL) && (e < |s| ==> s[e] == NUL)
    ensures StringEnd(s, 0) == e
  {
  }

  ghost predicate SevenBit(name: seq<byte>)
  {
    forall i | 0 <= i < |name| :: name[i] < 128
  }

  /** The stored names are signed characters and the requested one is not, so a stored name with a byte above
      127 never matches. */
  ghost predicate SameName(asked: seq<byte>, stored: seq<byte>)
  {
    NameOf(asked) == NameOf(stored) && SevenBit(NameOf(stored))
  }

  function SignedChar(b: byte): int
  {
    if b < 128 then b else b - 256
  }

  ghost predicate Named(m: Image, asked: seq<byte>, k: nat)
    requires k < |m.entries|
  {
    SameName(asked, m.entries[k].fname)
  }

  /** k is the entry a lookup finds; the number of entries when it finds none. */
  ghost predicate FirstNamed(m: Image, asked: seq<byte>, k: nat)
  {
    && k <= |m.entries|
    && (forall j: nat | j < k :: !Named(m, asked, j))
    && (k < |m.entries| ==> Named(m, asked, k))
  }

  /** The entry a lookup finds, searching from index i; the number of entries when there is none. */
  ghost function FirstIndex(m: Image, asked: seq<byte>, i: nat): (k: nat)
    requires i <= |m.entries| && forall j: nat | j < i :: !Named(m, asked, j)
    ensures FirstNamed(m, asked, k)
    decreases |m.entries| - i
  {
    if i == |m.entries| || Named(m, asked, i) then i else FirstIndex(m, asked, i + 1)
  }

  lemma FirstUnique(m: Image, asked: seq<byte>, a: nat, b: nat)
    requires FirstNamed(m, asked, a) && FirstNamed(m, asked, b)
    ensures a == b
  {
  }

  /** Two fields agree before i: same non-NUL bytes, all seven-bit. */
  ghost predicate AgreeUpTo(asked: seq<byte>, stored: seq<byte>, i: nat)
    requires i <= |asked| && i <= |stored|
  {
    forall j | 0 <= j < i :: asked[j] == stored[j] && asked[j] != NUL && stored[j] < 128
  }

  lemma AgreeToEnd(asked: seq<byte>, stored: seq<byte>, i: nat)
    requires |asked| == |stored| && i <= |asked| && AgreeUpTo(asked, stored, i)
    requires i == |asked| || asked[i] == stored[i] == NUL
    ensures SameName(asked, stored)
  {
  }

  lemma Disagree(asked: seq<byte>, stored: seq<byte>, i: nat)
    requires |asked| == |stored| && i < |asked| && AgreeUpTo(asked, stored, i)
    requires asked[i] != SignedChar(stored[i])
    ensures !SameName(asked, stored)
  {
  }

  /** A name is read back from the field it was put in. */
  lemma NameRoundTrip(name: seq<byte>)
    requires NulFree(name) && |name| <= NAME_LEN
    ensures NameOf(NamePadded(name)) == name
  {
    StringEndIs(NamePadded(name), |name|);
  }

  /** An entry answers to exactly the name it carries, and to none if that has a byte above 127. */
  lemma NamedExactly(m: Image, name: seq<byte>, k: nat)
    requires ImageOk(m) && NulFree(name) && |name| <= NAME_LEN && k < |m.entries|
    ensures Named(m, NamePadded(name), k) <==>
            NameOf(m.entries[k].fname) == name && forall i | 0 <= i < |name| :: name[i] < 128
  {
    NameRoundTrip(name);
  }

  // ----- Contents.

  /** Every offset up to and including the length resolves to a block of the image. */
  ghost predicate FileOk(m: Image, inode: nat)
  {
    && ImageOk(m) && inode < |m.inodes|
    && m.inodes[inode].len < BLOCKS_PER_INODE * BLOCK
    && forall b | 0 <= b <= m.inodes[inode].len / BLOCK :: m.inodes[inode].dblocks[b] < |m.blocks|
  }

  function ByteAt(m: Image, inode: nat, offset: nat): byte
    requires FileOk(m, inode) && offset <= m.inodes[inode].len
  {
    m.blocks[m.inodes[inode].dblocks[offset / BLOCK]][offset % BLOCK]
  }

  /** What the reads of a file draw from: its bytes and the one after them, because the end test admits the
      offset len itself. */
  ghost function Readable(m: Image, inode: nat): (r: seq<byte>)
    requires FileOk(m, inode)
    ensures |r| == m.inodes[inode].len + 1
  {
    seq(m.inodes[inode].len + 1, i requires 0 <= i <= m.inodes[inode].len => ByteAt(m, inode, i))
  }

  ghost function Contents(m: Image, inode: nat): seq<byte>
    requires FileOk(m, inode)
  {
    Readable(m, inode)[..m.inodes[inode].len]
  }

  function Min(a: int, b: int): int
  {
    if a <= b then a else b
  }

  /** The slice of s at position that a request for n bytes gets. */
  function Slice(s: seq<byte>, position: nat, n: nat): (r: seq<byte>)
    ensures |r| <= n
  {
    s[Min(position, |s|)..Min(position + n, |s|)]
  }

  ghost function ReadAt(m: Image, inode: nat, position: nat, n: nat): seq<byte>
    requires FileOk(m, inode)
  {
    Slice(Readable(m, inode), position, n)
  }

  /** Blocks of an image laid end to end. */
  function Laid(blocks: seq<seq<byte>>, list: seq<nat>): seq<byte>
    requires forall k | 0 <= k < |list| :: list[k] < |blocks|
  {
    if list == [] then [] else blocks[list[0]] + Laid(blocks, list[1..])
  }

  lemma {:induction false} LaidAt(blocks: seq<seq<byte>>, list: seq<nat>, i: nat)
    requires forall k | 0 <= k < |list| :: list[k] < |blocks| && |blocks[list[k]]| == 4096
    ensures |Laid(blocks, list)| == 4096 * |list|
    ensures i < 4096 * |list| ==> Laid(blocks, list)[i] == blocks[list[i / 4096]][i % 4096]
  {
    if list != [] {
      assert forall k | 0 <= k < |list| - 1 :: list[1..][k] == list[k + 1];
      LaidAt(blocks, list[1..], if i >= 4096 then i - 4096 else 0);
      if i >= 4096 {
        NextBlock(i);
      }
    }
  }

  lemma NextBlock(i: nat)
    requires i >= 4096
    ensures (i - 4096) / 4096 == i / 4096 - 1 && (i - 4096) % 4096 == i % 4096
  {
  }

  /** What the reads draw from is the file's blocks laid end to end, up to the byte behind the last. */
  lemma ReadableIsLaid(m: Image, inode: nat)
    requires FileOk(m, inode)
    ensures inode < |m.inodes|
    ensures var list := m.inodes[inode].dblocks[..m.inodes[inode].len / 4096 + 1];
            && (forall k | 0 <= k < |list| :: list[k] < |m.blocks|)
            && |Laid(m.blocks, list)| > m.inodes[inode].len
            && Readable(m, inode) == Laid(m.blocks, list)[..m.inodes[inode].len + 1]
  {
    var len := m.inodes[inode].len;
    var list := m.inodes[inode].dblocks[..len / 4096 + 1];
    LaidAt(m.blocks, list, len);
    forall i | 0 <= i <= len ensures Readable(m, inode)[i] == Laid(m.blocks, list)[i] {
      LaidAt(m.blocks, list, i);
      DivideUp(i, len);
    }
  }

  class FileSys {
    const image: Image
    /** The entry found last, a global of the original. */
    var currentDentry: Dentry

    ghost predicate Valid()
    {
      ImageOk(image)
    }

    constructor (image: Image)
      requires ImageOk(image)
      ensures Valid() && this.image == image
    {
      this.image := image;
      currentDentry := NO_DENTRY;
    }

    /** The character loop of read_dentry_by_name, student-distrib/filesys.c:182-193. */
    method Compare(fname: seq<byte>, i: nat) returns (differs: bool)
      requires Valid() && |fname| == NAME_LEN && i < |image.entries|
      ensures differs <==> !Named(image, fname, i)
    {
      var stored := image.entries[i].fname;
      var j := 0;
      while j < NAME_LEN
        invariant 0 <= j <= NAME_LEN && AgreeUpTo(fname, stored, j)
      {
        if fname[j] == NUL && SignedChar(stored[j]) == NUL {
          break;
        }
        if fname[j] != SignedChar(stored[j]) {
          Disagree(fname, stored, j);
          return true;
        }
        j := j + 1;
      }
      AgreeToEnd(fname, stored, j);
      return false;
    }

    /** Finds the first entry of that name, or fails exactly when there is none. */
    method ReadDentryByName(fname: seq<byte>) returns (ret: int, dentry: Dentry)
      requires Valid() && |fname| == NAME_LEN
      ensures var k := FirstIndex(image, fname, 0);
              if k < |image.entries| then ret == 0 && dentry == image.entries[k] else ret == -1
    {
      var i: nat := 0;
      while i < |image.entries|
        invariant i <= |image.entries| && forall j: nat | j < i :: !Named(image, fname, j)
      {
        var cont := Compare(fname, i);
        if !cont {
          FirstUnique(image, fname, i, FirstIndex(image, fname, 0));
          return 0, image.entries[i];
        }
        i := i + 1;
      }
      FirstUnique(image, fname, i, FirstIndex(image, fname, 0));
      return -1, NO_DENTRY;
    }

    method ReadDentryByIndex(idx: nat) returns (ret: int, dentry: Dentry)
      requires Valid()
      modifies this
      ensures if idx < |image.entries| then ret == 0 && dentry == image.entries[idx] == currentDentry
              else ret == -1 && currentDentry == old(currentDentry)
    {
      if idx >= |image.entries| { return -1, NO_DENTRY; }
      currentDentry := image.entries[idx];
      return 0, currentDentry;
    }

    method FileOpen(fname: seq<byte>) returns (ret: int)
      requires Valid() && |fname| == NAME_LEN
      modifies this
      ensures var k := FirstIndex(image, fname, 0);
              if k < |image.entries| then ret == 0 && currentDentry == image.entries[k]
              else ret == -1 && currentDentry == old(currentDentry)
    {
      var dentry;
      ret, dentry := ReadDentryByName(fname);
      if ret == -1 { return; }
      currentDentry := dentry;
    }

    /** Resolve an offset through the block list, student-distrib/filesys.c:265-266. */
    method Fetch(inode: nat, offset: nat) returns (b: byte)
      requires FileOk(image, inode) && offset <= image.inodes[inode].len
      ensures b == ByteAt(image, inode, offset)
    {
      DivideUp(offset, image.inodes[inode].len);
      var block := image.inodes[inode].dblocks[offset / BLOCK];
      return image.blocks[block][offset % BLOCK];
    }

    /** read_data; an inode number above the number of inodes is refused. */
    method ReadData(inode: nat, start: nat, buf: array<byte>, nbytes: nat) returns (ret: int)
      requires (inode > |image.inodes| || FileOk(image, inode)) && nbytes <= buf.Length
      modifies buf
      ensures inode > |image.inodes| ==> ret == -1 && buf[..] == old(buf[..])
      ensures inode < |image.inodes| ==>
          ret == |ReadAt(image, inode, start, nbytes)|
          && buf[..] == ReadAt(image, inode, start, nbytes) + old(buf[ret..])
    {
      hide Slice, ReadAt, Readable, ByteAt, FileOk;
      if inode > |image.inodes| { return -1; }
      ValidInode(image, inode);
      var whenToStop := image.inodes[inode].len - start;
      var offset, read: int, i: nat := start, 0, 0;
      ghost var was, all := buf[..], ReadAt(image, inode, start, nbytes);
      ReadBytes(image, inode, start, nbytes);
      while i < nbytes && read <= whenToStop
        invariant i <= |all| && read == i && offset == start + i
        invariant buf[..i] == all[..i] && buf[i..] == was[i..]
      {
        buf[i] := Fetch(inode, offset);
        offset := offset + 1;
        read := read + 1;
        i := i + 1;
      }
      assert all[..i] == all && buf[..] == buf[..i] + buf[i..];
      return i;
    }
  }

  lemma ValidInode(m: Image, inode: nat)
    requires FileOk(m, inode)
    ensures inode < |m.inodes|
  {
  }

  lemma ReadBytes(m: Image, inode: nat, start: nat, n: nat)
    requires FileOk(m, inode)
    ensures var all, len := ReadAt(m, inode, start, n), m.inodes[inode].len;
            && |all| == (if start <= len then Min(n, len + 1 - start) else 0)
            && forall i | 0 <= i < |all| :: all[i] == ByteAt(m, inode, start + i)
  {
  }

  lemma DivideUp(a: nat, b: nat)
    requires a <= b
    ensures a / BLOCK <= b / BLOCK
  {
  }

  /** An open descriptor on a file or directory: the fields of fd_items the readers use. */
  class OpenFile {
    const fs: FileSys
    var inode: nat
    var position: nat

    constructor (fs: FileSys, inode: nat)
      ensures this.fs == fs && this.inode == inode && position == 0
    {
      this.fs := fs;
      this.inode := inode;
      position := 0;
    }

    /** For an inode that is refused file_read has already added the -1 to the position, a 32-bit word, when it
        returns 0. */
    method FileRead(buf: array<byte>, nbytes: nat) returns (ret: nat)
      requires (inode > |fs.image.inodes| || FileOk(fs.image, inode)) && nbytes <= buf.Length
      modifies this`position, buf
      ensures inode > |fs.image.inodes| ==>
          ret == 0 && position == (old(position) - 1) % 0x1_0000_0000 && buf[..] == old(buf[..])
      ensures inode < |fs.image.inodes| ==>
          && ret == |ReadAt(fs.image, inode, old(position), nbytes)| && position == old(position) + ret
          && buf[..] == ReadAt(fs.image, inode, old(position), nbytes) + old(buf[ret..])
    {
      var status := fs.ReadData(inode, position, buf, nbytes);
      if status == -1 {
        position := (position - 1) % 0x1_0000_0000;
        return 0;
      }
      position := position + status;
      return status;
    }

    /** The name goes into the buffer with its NUL if it has one; the count does not include the NUL. */
    method DirRead(buf: array<byte>) returns (ret: nat)
      requires fs.Valid() && buf.Length >= NAME_LEN
      modifies this`position, fs, buf
      ensures if old(position) < |fs.image.entries| then
                var name := NameOf(fs.image.entries[old(position)].fname);
                && ret == |name| <= NAME_LEN && position == old(position) + 1
                && buf[..] == if ret < NAME_LEN then name + [NUL] + old(buf[ret + 1..]) else name + old(buf[ret..])
              else ret == 0 && position == old(position) && buf[..] == old(buf[..])
    {
      var status, dentry := fs.ReadDentryByIndex(position);
      if status == -1 { return 0; }
      position := position + 1;
      var i: nat := 0;
      while i < NAME_LEN
        invariant i <= NAME_LEN && buf[..i] == dentry.fname[..i] && position == old(position) + 1
        invariant forall j | 0 <= j < i :: dentry.fname[j] != NUL
        invariant buf[i..] == old(buf[i..])
      {
        buf[i] := dentry.fname[i];
        if dentry.fname[i] == NUL {
          StringEndIs(dentry.fname, i);
          assert buf[i + 1..] == old(buf[i..])[1..] == old(buf[i + 1..]);
          assert buf[..] == buf[..i] + [NUL] + buf[i + 1..];
          return i;
        }
        i := i + 1;
      }
      StringEndIs(dentry.fname, i);
      return i;
    }
  }

  // ----- Reads in any number of pieces.

  lemma SliceShape(s: seq<byte>, p: nat, n: nat)
    ensures |Slice(s, p, n)| == if p <= |s| then Min(n, |s| - p) else 0
    ensures forall i | 0 <= i < |Slice(s, p, n)| :: Slice(s, p, n)[i] == s[p + i]
  {
  }

  /** Two successive reads are one. */
  lemma SliceAdd(s: seq<byte>, p: nat, m: nat, n: nat)
    ensures var a := Slice(s, p, m); a + Slice(s, p + |a|, n) == Slice(s, p, m + n) || |a| < m
    ensures var a := Slice(s, p, m); |a| < m ==> Slice(s, p + |a|, n) == [] && Slice(s, p, m + n) == a
  {
  }

  function Total(sizes: seq<nat>): nat
  {
    if sizes == [] then 0 else sizes[0] + Total(sizes[1..])
  }

  /** The bytes successive reads of these sizes return, each starting where the last one stopped. */
  ghost function ReadsFrom(m: Image, inode: nat, position: nat, sizes: seq<nat>): seq<byte>
    requires FileOk(m, inode)
    decreases |sizes|
  {
    if sizes == [] then []
    else var first := ReadAt(m, inode, position, sizes[0]);
         first + ReadsFrom(m, inode, position + |first|, sizes[1..])
  }

  lemma NothingRead(m: Image, inode: nat, position: nat)
    requires FileOk(m, inode)
    ensures ReadAt(m, inode, position, 0) == []
  {
  }

  /** Reads in pieces of any sizes return what one read of the total size returns. */
  lemma {:induction false} ReadsAdditive(m: Image, inode: nat, position: nat, sizes: seq<nat>)
    requires FileOk(m, inode)
    ensures ReadsFrom(m, inode, position, sizes) == ReadAt(m, inode, position, Total(sizes))
    decreases |sizes|
  {
    hide Slice, Readable, FileOk;
    if sizes == [] {
      NothingRead(m, inode, position);
    } else {
      var first := ReadAt(m, inode, position, sizes[0]);
      ReadsAdditive(m, inode, position + |first|, sizes[1..]);
      SliceAdd(Readable(m, inode), position, sizes[0], Total(sizes[1..]));
      assert first + [] == first;
    }
  }

  /** Once a read comes up short every later one returns nothing. */
  lemma ShortIsLast(m: Image, inode: nat, position: nat, n: nat, later: nat)
    requires FileOk(m, inode) && |ReadAt(m, inode, position, n)| < n
    ensures ReadAt(m, inode, position + |ReadAt(m, inode, position, n)|, later) == []
  {
  }

  /** A read returns the file's own bytes exactly when it stops before the end or starts beyond it;
      a request that crosses the end is given one byte too many. */
  lemma ReadWithinFile(m: Image, inode: nat, position: nat, n: nat)
    requires FileOk(m, inode)
    ensures ReadAt(m, inode, position, n) == Slice(Contents(m, inode), position, n)
            <==> position + n <= m.inodes[inode].len || position > m.inodes[inode].len
  {
    hide Slice, Readable;
    var len := m.inodes[inode].len;
    SliceShape(Readable(m, inode), position, n);
    SliceShape(Contents(m, inode), position, n);
    if position + n <= len {
      assert ReadAt(m, inode, position, n) == Slice(Contents(m, inode), position, n);
    }
  }

  // ----- Enumeration against lookup.

  ghost function EntryName(m: Image, k: nat): seq<byte>
    requires k < |m.entries|
  {
    NameOf(m.entries[k].fname)
  }

  /** Looking an enumerated name up finds the very entry it came from exactly when the name is seven-bit and
      no earlier entry has it. */
  lemma EnumerationAgreesWithLookup(m: Image, k: nat, found: nat)
    requires ImageOk(m) && k < |m.entries| && FirstNamed(m, NamePadded(EntryName(m, k)), found)
    ensures found == k <==> SevenBit(EntryName(m, k)) && forall j: nat | j < k :: EntryName(m, j) != EntryName(m, k)
  {
    PaddedName(m.entries[k].fname);
    var asked := NamePadded(EntryName(m, k));
    forall j: nat | j < |m.entries|
      ensures Named(m, asked, j) <==> EntryName(m, j) == EntryName(m, k) && SevenBit(EntryName(m, j))
    {
    }
    if found == k {
      assert Named(m, asked, k);
    }
  }

  /** The names a client that reads a directory until it gets 0 sees. */
  ghost function Listing(m: Image, position: nat): seq<seq<byte>>
    requires ImageOk(m)
    decreases |m.entries| - position
  {
    if position >= |m.entries| || EntryName(m, position) == [] then []
    else [EntryName(m, position)] + Listing(m, position + 1)
  }

  ghost function Names(m: Image, position: nat): (r: seq<seq<byte>>)
    requires ImageOk(m) && position <= |m.entries|
    ensures |r| == |m.entries| - position
  {
    seq(|m.entries| - position, k requires 0 <= k < |m.entries| - position => EntryName(m, position + k))
  }

  /** It sees every name once, in order, exactly when no entry has the empty name. */
  lemma {:induction false} ListingComplete(m: Image, position: nat)
    requires ImageOk(m) && position <= |m.entries|
    ensures Listing(m, position) == Names(m, position)
            <==> forall k: nat | position <= k < |m.entries| :: EntryName(m, k) != []
    decreases |m.entries| - position
  {
    if position < |m.entries| {
      ListingComplete(m, position + 1);
      var name := EntryName(m, position);
      assert Names(m, position) == [name] + Names(m, position + 1);
      if name != [] {
        assert Listing(m, position) == [name] + Listing(m, position + 1);
        assert Listing(m, position)[1..] == Listing(m, position + 1);
        assert Names(m, position)[1..] == Names(m, position + 1);
      } else {
        assert |Names(m, position)| > 0 && Listing(m, position) == [];
      }
    }
  }
}
