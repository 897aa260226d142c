/** A write that is torn: an image as mkfs makes it, mounted, and a writei whose source cannot all be read. */
module FsTorn {
  import opened FsBlocks
  import opened FsFiles
  import opened FsCode
  import opened Mkfs

  lemma OneFileFits(file: seq<Byte>)
    requires |file| == BSIZE
    ensures var start := Meta(FSSIZE, NINODES, LOGSIZE); start <= FSSIZE && Buildable(FSSIZE, start, [file])
  {
    SmallFiles([file]);
  }

  /** The image of one file of one block: the file is inode 2. */
  method OneFileImage(dots: seq<seq<Byte>>, entry: seq<Byte>, file: seq<Byte>) returns (fs: FileSystem)
    requires |dots| == 2 && |dots[0]| == |dots[1]| == DIRENT && |entry| == DIRENT && |file| == BSIZE
    ensures fresh(fs) && Ready(fs.View(), 2) && Contents(fs.View(), 2) == file
  {
    OneFileFits(file);
    assert Flat([file]) == [] + file == file;
    assert Flats([[file]]) == [file];
    var img, ok, bit := MakeImage(FSSIZE, NINODES, LOGSIZE, dots, [entry], [[file]]);
    fs := Mount(img, bit, dots[0] + dots[1] + Flat([entry]), file);
  }

  method Mount(img: Image, bit: seq<bool>, ghost dir: seq<Byte>, ghost file: seq<Byte>) returns (fs: FileSystem)
    requires Inv(img.View()) && Synced(img.View()) && Finished(img.View(), dir, [file]) && bit == img.View().bit
    ensures fresh(fs) && Ready(fs.View(), 2) && Contents(fs.View(), 2) == file
  {
    fs := new FileSystem(img.size, img.start, img.inodestart, img.bmapstart, bit, img.blk, img.dino, img.own);
    FinishedHolds(img.View(), dir, file, fs.View());
  }

  /** What a finished image of one file holds, once mounted. */
  lemma FinishedHolds(m: Fs, dir: seq<Byte>, file: seq<Byte>, n: Fs)
    requires Inv(m) && Synced(m) && Finished(m, dir, [file]) && n == m.(log := {})
    ensures Ready(n, 2) && Contents(n, 2) == file
  {
    LogPlaysNoPart(m, {});
    assert InodeIs(m.ino, dir, [file], 2);
    forall p | 0 <= p < |file| ensures Contents(n, 2)[p] == file[p] {
      assert ByteIs(m, dir, [file], 2, p);
    }
  }

  /** Of a block of new bytes only the first 100 can be read: writei counts none, and 100 are in the file. */
  method TornWrite(dots: seq<seq<Byte>>, entry: seq<Byte>, file: seq<Byte>, src: seq<Byte>)
    returns (fs: FileSystem, tot: int)
    requires |dots| == 2 && |dots[0]| == |dots[1]| == DIRENT && |entry| == DIRENT && |file| == |src| == BSIZE
    ensures Ready(fs.View(), 2) && tot == 0 && Contents(fs.View(), 2) == src[..100] + file[100..]
  {
    fs := OneFileImage(dots, entry, file);
    ghost var f := fs.View();
    ghost var spill;
    tot, spill := fs.Writei(2, 0, src, 100);
    EndsWhere(0, BSIZE, 100, BSIZE, tot, spill, Full(fs.View()));
    assert Torn(file, 0, src[..100], 0) == src[..100] + file[100..];
  }
}
