/** What is read from a disk, and what is handed on for export. */
module Files {
  import opened Machine

  /** What reading n bytes at an offset of the disk returns. */
  type Reader = (int, int) -> seq<byte>

  /** The reader returns what is on the disk, wherever a request lies on it. */
  ghost predicate ReadsFrom(read: Reader, disk: seq<byte>) {
    && |disk| < 0x8000_0000_0000_0000
    && (forall p, n {:trigger read(p, n)} :: 0 <= p && 0 <= n && p + n <= |disk| ==>
          |read(p, n)| == n && forall k :: 0 <= k < n ==> read(p, n)[k] == disk[p + k])
  }

  datatype AskedFile = AskedFile(name: string, id: nat, content: seq<byte>)
}
