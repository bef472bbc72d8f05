/** The search on a file of the kernel's own file system. */
module GrepFiles {
  import opened Bytes
  import opened Grep
  import FS = FileSystem

  /** A stream over what a file's reads draw from hands out, read by read, what the file system does. */
  lemma StreamIsFile(m: FS.Image, inode: nat, position: nat, n: nat)
    requires FS.FileOk(m, inode) && position <= |FS.Readable(m, inode)|
    ensures var content := FS.Readable(m, inode);
            var cnt := if n <= |content| - position then n else |content| - position;
            FS.ReadAt(m, inode, position, n) == content[position..position + cnt]
  {
    hide FS.Readable, FS.FileOk;
  }

  /** For a text file with a NUL behind its end, which the reads hand out too, the bytes written are those of the
      lines that contain the pattern exactly when each of these fits the buffer and a stale newline behind the
      buffer cuts none. */
  lemma FileSearched(stale: bool, fname: seq<byte>, s: seq<byte>, m: FS.Image, inode: nat)
    requires FS.FileOk(m, inode) && inode < |m.inodes| && FS.ByteAt(m, inode, m.inodes[inode].len) == NUL
    requires NulFree(FS.Contents(m, inode)) && NulFree(s) && s != []
    requires forall i | 0 <= i < |fname| :: fname[i] != NEWLINE
    ensures var text := FS.Contents(m, inode);
            && NulsEndLines(FS.Readable(m, inode))
            && (RestFor(stale, fname, s, FS.Readable(m, inode)) == Render(fname, Wanted(s, Lines(text)))
                <==> FoundLinesFit(s, text) && (stale ==> Harmless(s, text)))
  {
    var text := FS.Contents(m, inode);
    ReadableSplit(m, inode);
    hide *;
    NulBehindText(stale, fname, s, text);
    OutputExact(stale, fname, s, text);
  }

  lemma ReadableSplit(m: FS.Image, inode: nat)
    requires FS.FileOk(m, inode) && inode < |m.inodes|
    ensures FS.Readable(m, inode) == FS.Contents(m, inode) + [FS.ByteAt(m, inode, m.inodes[inode].len)]
  {
    hide FS.ByteAt;
  }
}
