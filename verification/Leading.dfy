/** Archives behind other bytes, such as a self-extracting program: an archive keeps its
    meaning when bytes are put in front of it, can then be added to, and is read back. */
module Leading {
  import opened Bytes
  import opened Stream
  import opened Checksum
  import opened DataBlocks
  import opened Entry
  import opened ZipWriter
  import opened Archive
  import opened RoundTrip

  /** The entries n bytes further on. */
  function Moved(es: seq<Entry>, n: nat): (r: seq<Entry>)
    ensures |r| == |es| && forall i :: 0 <= i < |es| ==> r[i] == es[i].(pos := es[i].pos + n)
  {
    seq(|es|, i requires 0 <= i < |es| => es[i].(pos := es[i].pos + n))
  }

  /** None of them reaches 4 GB by that. */
  ghost predicate Below(es: seq<Entry>, n: nat)
  {
    forall i :: 0 <= i < |es| ==> es[i].pos + n < SENTINEL
  }

  lemma RecordMoved(e: Entry, base: nat, n: nat)
    requires base <= e.pos && e.pos + n < SENTINEL
    ensures CentralBytes(e.(pos := e.pos + n), base + n) == CentralBytes(e, base)
  {
    hide Put;
    assert CentralZip64(e.(pos := e.pos + n)) == CentralZip64(e);
  }

  lemma PlacedMoved(es: seq<Entry>, base: nat, n: nat)
    requires Placed(es, base)
    ensures Placed(Moved(es, n), base + n)
  {
  }

  lemma MovedSnoc(es: seq<Entry>, e: Entry, n: nat)
    ensures Moved(es + [e], n) == Moved(es, n) + [e.(pos := e.pos + n)]
  {
  }

  lemma FrontBelow(es: seq<Entry>, e: Entry, base: nat, n: nat)
    requires Placed(es + [e], base) && Below(es + [e], n)
    ensures Placed(es, base) && Below(es, n) && base <= e.pos && e.pos + n < SENTINEL
  {
    assert (es + [e])[|es|] == e;
    assert forall i :: 0 <= i < |es| ==> (es + [e])[i] == es[i];
  }

  /** Positions in the directory are relative, so it does not change. */
  lemma {:induction false} DirMoved(es: seq<Entry>, base: nat, n: nat)
    requires Placed(es, base) && Below(es, n)
    ensures Dir(Moved(es, n), base + n) == Dir(es, base)
  {
    hide CentralBytes, Dir, Moved, Placed, Below;
    EmptyDir(base);
    EmptyDir(base + n);
    if es == [] {
      assert Moved(es, n) == [];
    } else {
      var front, e := es[..|es| - 1], es[|es| - 1];
      assert es == front + [e];
      FrontBelow(front, e, base, n);
      DirMoved(front, base, n);
      RecordMoved(e, base, n);
      MovedSnoc(front, e, n);
      DirSnoc(front, e, base);
      DirSnoc(Moved(front, n), e.(pos := e.pos + n), base + n);
    }
  }

  lemma EndMoved(base: nat, cdPos: nat, size: nat, count: nat, text: seq<byte>, n: nat)
    requires base <= cdPos
    ensures EndPart(base + n, cdPos + n, size, count, text) == EndPart(base, cdPos, size, count, text)
  {
    assert cdPos + n - (base + n) == cdPos - base;
    assert cdPos + n + size - (base + n) == cdPos + size - base;
  }

  lemma AtBehind(x: seq<byte>, b: seq<byte>, p: nat, s: seq<byte>)
    requires At(b, p, s)
    ensures At(x + b, |x| + p, s)
  {
  }

  lemma EntryMoved(x: seq<byte>, b: seq<byte>, e: Entry, cdPos: nat)
    requires EntryAt(b, e, cdPos)
    ensures EntryAt(x + b, e.(pos := e.pos + |x|), cdPos + |x|)
  {
    hide At;
    AtBehind(x, b, e.pos, LocalBytes(e) + e.payload);
    assert LocalBytes(e.(pos := e.pos + |x|)) == LocalBytes(e);
  }

  /** An archive with bytes put in front of it is an archive of the same entries. */
  lemma Prefixed(x: seq<byte>, b: seq<byte>, base: nat, cdPos: nat, es: seq<Entry>, text: seq<byte>)
    requires IsArchive(b, base, cdPos, es, text) && Below(es, |x|)
    ensures IsArchive(x + b, base + |x|, cdPos + |x|, Moved(es, |x|), text)
  {
    hide Dir, EndPart, EntryAt, At;
    var n, ms := |x|, Moved(es, |x|);
    DirMoved(es, base, n);
    PlacedMoved(es, base, n);
    EndMoved(base, cdPos, |Dir(es, base)|, |es|, text, n);
    assert (x + b)[cdPos + n..] == b[cdPos..];
    forall i | 0 <= i < |ms|
      ensures EntryAt(x + b, ms[i], cdPos + n)
    {
      EntryMoved(x, b, es[i], cdPos);
    }
    MakeArchive(x + b, base + n, cdPos + n, ms, text);
  }

  /** Below 4 GB, and with an end record that the backward scan finds. */
  predicate Ordinary(b: seq<byte>, text: seq<byte>)
  {
    |b| < SENTINEL && 22 + |text| <= |b| && EndFound(b, |b| - 22 - |text|, |text|)
  }

  lemma OrdinaryEnd(b: seq<byte>, base: nat, cdPos: nat, es: seq<Entry>, text: seq<byte>)
    requires IsArchive(b, base, cdPos, es, text) && Ordinary(b, text)
    ensures PlainEnd(b, base, cdPos, es, text) && cdPos < SENTINEL && Below(es, 0)
  {
    hide EndFound, At, Dir, LocalBytes, LocalLength;
    ArchiveParts(b, base, cdPos, es, text);
    forall i | 0 <= i < |es|
      ensures es[i].pos < SENTINEL
    {
      assert EntryAt(b, es[i], cdPos);
    }
    EndLength(base, cdPos, |Dir(es, base)|, |es|, text);
  }

  lemma EndLength(base: nat, cdPos: nat, size: nat, count: nat, text: seq<byte>)
    requires base <= cdPos < SENTINEL
    ensures |EndPart(base, cdPos, size, count, text)| == 22 + |text|
  {
  }

  lemma {:induction false} CStringTwice(s: seq<byte>)
    ensures CString(CString(s)) == CString(s)
  {
    if s != [] && s[0] != 0 {
      CStringTwice(s[1..]);
      assert CString(s)[1..] == CString(s[1..]);
    }
  }

  lemma Shifted(x: seq<byte>, b: seq<byte>, cdPos: nat, es: seq<Entry>, text: seq<byte>)
    requires IsArchive(b, 0, cdPos, es, text) && Ordinary(x + b, text)
    ensures IsArchive(x + b, |x|, cdPos + |x|, Moved(es, |x|), text)
    ensures PlainEnd(x + b, |x|, cdPos + |x|, Moved(es, |x|), text) && cdPos <= |b|
  {
    hide EndPart, EntryAt, At, Dir, PlainEnd;
    forall i | 0 <= i < |es|
      ensures es[i].pos + |x| < SENTINEL
    {
      EntryBelow(b, es[i], cdPos);
    }
    Prefixed(x, b, 0, cdPos, es, text);
    OrdinaryEnd(x + b, |x|, cdPos + |x|, Moved(es, |x|), text);
  }

  lemma EntryBelow(b: seq<byte>, e: Entry, cdPos: nat)
    requires EntryAt(b, e, cdPos)
    ensures e.pos < cdPos
  {
  }

  lemma Extended(b: seq<byte>, base: nat, cdPos: nat, es: seq<Entry>, fs: seq<Entry>, text: seq<byte>)
    requires Ordinary(b, text) && base <= cdPos <= |b| && es + fs != []
    requires CountKept(|es|, cdPos - base) ==> IsArchive(b, base, cdPos, es + fs, text)
    ensures IsArchive(b, base, cdPos, es + fs, text) && EndsPlainly(b, base, cdPos, es + fs, text)
  {
    hide IsArchive, PlainEnd, EndFound;
    OrdinaryEnd(b, base, cdPos, es + fs, text);
  }

  lemma MovedModest(es: seq<Entry>, n: nat)
    requires forall k :: 0 <= k < |es| ==> Modest(es[k])
    ensures forall k :: 0 <= k < |Moved(es, n)| ==> Modest(Moved(es, n)[k])
  {
    hide Crc, Moved;
    forall k | 0 <= k < |es|
      ensures Modest(Moved(es, n)[k])
    {
      assert Modest(es[k]);
    }
  }

  /** What the two lists of jobs left behind, the first one moved. */
  lemma AllRecorded(es: seq<Entry>, fs: seq<Entry>, jobs: seq<Job>, more: seq<Job>, n: nat)
    requires Recorded(es, jobs) && Recorded(fs, more)
    requires forall i :: 0 <= i < |jobs| ==> jobs[i].Plain() && jobs[i].Fits()
    ensures Recorded(Moved(es, n) + fs, jobs + more)
    ensures forall k :: 0 <= k < |Moved(es, n)| ==> Modest(Moved(es, n)[k])
  {
    hide Join, Job.Fits, Moved, Modest, Crc;
    JobsModest(es, jobs);
    MovedModest(es, n);
    forall i | 0 <= i < |es + fs|
      ensures Holds1((Moved(es, n) + fs)[i], (jobs + more)[i])
    {
      if i < |es| {
        assert Holds1(es[i], jobs[i]);
      } else {
        assert Holds1(fs[i - |es|], more[i - |es|]);
      }
    }
  }

  lemma RecordedOne(es: seq<Entry>, jobs: seq<Job>)
    requires Recorded(es, jobs)
    ensures |es| == |jobs|
    ensures forall i :: 0 <= i < |es| ==> es[i].p.name == jobs[i].p.name && es[i].payload == Join(jobs[i].pieces)
  {
    forall i | 0 <= i < |es|
      ensures es[i].p.name == jobs[i].p.name && es[i].payload == Join(jobs[i].pieces)
    {
      assert Holds1(es[i], jobs[i]);
    }
  }

  lemma KeptInFront(x: seq<byte>, b: seq<byte>, c: seq<byte>, n: nat)
    requires |x| <= n <= |x + b| && n <= |c| && c[..n] == (x + b)[..n]
    ensures c[..|x|] == x
  {
    assert c[..|x|] == c[..n][..|x|] == (x + b)[..n][..|x|];
  }

  /** Zip some entries, put x in front, add more entries, and read the archive: if both
      files end in an ordinary way, all names and contents come back in order, and x is
      still there. */
  method WriteAddRead(jobs: seq<Job>, text: seq<byte>, x: seq<byte>, more: seq<Job>, len: nat)
    returns (first: seq<byte>, second: seq<byte>, names: seq<seq<byte>>, contents: seq<seq<byte>>)
    requires len > 0 && jobs + more != []
    requires forall i :: 0 <= i < |jobs| ==> jobs[i].Plain() && jobs[i].Fits()
    requires forall i :: 0 <= i < |more| ==> more[i].Plain() && more[i].Fits()
    ensures Ordinary(x + first, CString(text)) && Ordinary(second, CString(text)) ==>
      && |x| <= |second| && second[..|x|] == x
      && |names| == |contents| == |jobs + more|
      && (forall i :: 0 <= i < |names| ==>
            names[i] == (jobs + more)[i].p.name && contents[i] == Join((jobs + more)[i].pieces))
  {
    hide Ordinary, IsArchive, Recorded, PlainEnd, PlainDirectory, Readable, EndsPlainly, Dir, Body, Moved, Below,
      Job.Fits, Modest, CString, CountKept, InfoOf, LastCode, RoundTrip.Whole, Sited;
    var t := CString(text);
    CStringTwice(text);
    var f := new File([]);
    ghost var es := WriteArchive(f, jobs, text);
    first, names, contents := f.bytes, [], [];
    second := x + first;
    if !Ordinary(x + first, t) {
      return;
    }
    var g := new File(x + first);
    ghost var n, cd := |x|, |Body(es)| + |x|;
    ghost var ms := Moved(es, n);
    Shifted(x, first, |Body(es)|, es, t);
    var _, fs := AppendArchive(g, more, n, cd, ms, t);
    second := g.bytes;
    if !Ordinary(second, t) {
      return;
    }
    ghost var cd2 := cd + |Body(fs)|;
    AllRecorded(es, fs, jobs, more, n);
    RecordedOne(ms + fs, jobs + more);
    Extended(second, n, cd2, ms, fs, t);
    var passed, infos, last;
    passed, names, infos, contents, last :=
      ReadArchive(g, len, PlainDirectory(n, cd2, ms + fs, t), n, cd2, ms + fs, t);
    KeptInFront(x, first, second, cd);
  }
}
