/**
 * The append-only paged data file of ISAM1.py. `add` puts a record into the
 * last page when it has a free slot and otherwise writes a new page at the end
 * of the file; `scanAll` reads the pages in file order and lists their records.
 * No page is ever linked: `next_page` stays -1.
 */
module IsamDataFile {
  import opened Wrappers
  import opened IsamPage

  /**
   * The data file a DataFile names: absent, or its pages in file order, page i
   * at byte offset i * SIZE_OF_PAGE, each as `Page.unpack` reads it back.
   */
  datatype Disk = Missing | Stored(pages: seq<Page>)

  /**
   * `scanAll` on a file that does not exist raises FileNotFoundError; `add` on a
   * file that exists but holds no page seeks to -SIZE_OF_PAGE and raises.
   */
  datatype FileError = FileNotFound | NegativeSeek

  /** The records of the pages in file order, page by page. */
  function AllRecords(ps: seq<Page>): seq<Record>
  {
    if ps == [] then [] else AllRecords(ps[..|ps| - 1]) + ps[|ps| - 1].records
  }

  /** The records a file holds; a missing file holds none. */
  function Contents(d: Disk): seq<Record>
  {
    match d
    case Missing => []
    case Stored(ps) => AllRecords(ps)
  }

  /** Every record of the file is one a page read back gives. */
  predicate AllCanonical(d: Disk)
  {
    d.Stored? ==> forall i, x :: 0 <= i < |d.pages| && x in d.pages[i].records ==> Canonical(x)
  }

  /**
   * `add(record)`: a missing file is created holding one page [record]; an
   * existing one gets the record at the end of its last page when that page
   * has a free slot, and a new page [record] at its end otherwise. The record
   * is stored as it reads back. An existing file without pages is an error.
   */
  function Added(d: Disk, r: Record): (res: Result<Disk, FileError>)
    ensures res.Failure? <==> d == Stored([])
    ensures res.Failure? ==> res.error == NegativeSeek
    ensures res.Success? ==> res.value.Stored?
  {
    match d
    case Missing => Success(Stored([Page([Normalize(r)], -1)]))
    case Stored(ps) =>
      if ps == [] then
        Failure(NegativeSeek)
      else
        var last := ps[|ps| - 1];
        if |last.records| < BLOCK_FACTOR then
          Success(Stored(ps[|ps| - 1 := Page(last.records + [Normalize(r)], last.next)]))
        else
          Success(Stored(ps + [Page([Normalize(r)], -1)]))
  }

  /** `scanAll`: every record of the file, page by page in file order. */
  function Scan(d: Disk): (res: Result<seq<Record>, FileError>)
    ensures res.Failure? <==> d.Missing?
    ensures res.Success? ==> res.value == Contents(d)
  {
    match d
    case Missing => Failure(FileNotFound)
    case Stored(ps) => Success(AllRecords(ps))
  }

  /** Adding the records rs one after the other; the first error stops the run. */
  function AddAll(d: Disk, rs: seq<Record>): Result<Disk, FileError>
  {
    if rs == [] then
      Success(d)
    else
      match AddAll(d, rs[..|rs| - 1])
      case Failure(e) => Failure(e)
      case Success(d') => Added(d', rs[|rs| - 1])
  }

  /**
   * The shape `add` builds: at least one page, every page but the last full,
   * the last holding 1 to BLOCK_FACTOR records, and no page linked.
   */
  predicate Packed(ps: seq<Page>)
  {
    |ps| > 0
    && (forall i :: 0 <= i < |ps| - 1 ==> |ps[i].records| == BLOCK_FACTOR)
    && 1 <= |ps[|ps| - 1].records| <= BLOCK_FACTOR
    && (forall i :: 0 <= i < |ps| ==> ps[i].next == -1)
  }

  // ---------------------------------------------------------------------------
  // Properties of `add` and `scanAll`

  /** The records of a prefix of the pages followed by those of the next page. */
  lemma AllRecordsStep(ps: seq<Page>, k: nat)
    requires k < |ps|
    ensures AllRecords(ps[..k + 1]) == AllRecords(ps[..k]) + ps[k].records
  {
    assert ps[..k + 1][..k] == ps[..k];
  }

  /**
   * Whatever the pages look like, an `add` that succeeds leaves the file
   * holding the records it held followed by the new one. It keeps the page
   * count exactly when the last page has a free slot, and otherwise appends
   * one page [record] and leaves every earlier page as it was; no page before
   * the last ever changes.
   */
  lemma AddAppends(d: Disk, r: Record)
    requires d != Stored([])
    ensures Contents(Added(d, r).value) == Contents(d) + [Normalize(r)]
    ensures d.Stored? ==> var ps := d.pages; var qs := Added(d, r).value.pages;
              (|qs| == |ps| <==> |ps[|ps| - 1].records| < BLOCK_FACTOR)
              && (|qs| == |ps| + 1 <==> |ps[|ps| - 1].records| >= BLOCK_FACTOR)
              && (|qs| == |ps| + 1 ==> qs[..|ps|] == ps && qs[|ps|] == Page([Normalize(r)], -1))
              && (forall i :: 0 <= i < |ps| - 1 ==> qs[i] == ps[i])
  {
    match d
    case Missing =>
      assert AllRecords([Page([Normalize(r)], -1)]) == AllRecords([]) + [Normalize(r)];
    case Stored(ps) =>
      var n := |ps| - 1;
      var last := ps[n];
      var qs := Added(d, r).value.pages;
      AllRecordsStep(ps, n);
      assert ps[..n + 1] == ps;
      if |last.records| < BLOCK_FACTOR {
        AllRecordsStep(qs, n);
        assert qs[..n] == ps[..n] && qs[..n + 1] == qs;
      } else {
        AllRecordsStep(qs, n + 1);
        assert qs[..n + 1] == ps && qs[..n + 2] == qs;
      }
  }

  /** `add` keeps the shape it builds: all pages full but the last, which holds 1 to BLOCK_FACTOR records. */
  lemma AddKeepsPacked(d: Disk, r: Record)
    requires d.Missing? || Packed(d.pages)
    ensures Added(d, r).Success?
    ensures Packed(Added(d, r).value.pages)
  {
    match d
    case Missing =>
    case Stored(ps) =>
      var n := |ps| - 1;
      var qs := Added(d, r).value.pages;
      if |ps[n].records| < BLOCK_FACTOR {
        assert qs == ps[n := Page(ps[n].records + [Normalize(r)], ps[n].next)];
        assert |qs[n].records| == |ps[n].records| + 1 && qs[n].next == -1;
      } else {
        assert qs == ps + [Page([Normalize(r)], -1)];
        assert |qs[|ps|].records| == 1 && qs[|ps|].next == -1;
      }
  }

  /** Records of pages that are all full: BLOCK_FACTOR per page. */
  lemma {:induction false} FullPagesCount(ps: seq<Page>)
    requires forall i :: 0 <= i < |ps| ==> |ps[i].records| == BLOCK_FACTOR
    ensures |AllRecords(ps)| == |ps| * BLOCK_FACTOR
  {
    if ps != [] {
      FullPagesCount(ps[..|ps| - 1]);
    }
  }

  /** A file of the shape `add` builds has exactly ceil(n / BLOCK_FACTOR) pages for its n records. */
  lemma PageCount(ps: seq<Page>)
    requires Packed(ps)
    ensures |ps| == (|AllRecords(ps)| + BLOCK_FACTOR - 1) / BLOCK_FACTOR
  {
    var k := |ps| - 1;
    FullPagesCount(ps[..k]);
    AllRecordsStep(ps, k);
    assert ps[..k + 1] == ps;
    var m := |ps[k].records|;
    assert |AllRecords(ps)| == k * BLOCK_FACTOR + m;
    assert (k * BLOCK_FACTOR + m + BLOCK_FACTOR - 1) / BLOCK_FACTOR == k + 1;
  }

  /**
   * Starting from a missing file, adding n > 0 records one after the other
   * never fails and builds ceil(n / BLOCK_FACTOR) pages of the shape `add`
   * keeps, whose records, read page by page, are the added ones in the order
   * they were added.
   */
  lemma {:induction false} AddAllFromMissing(rs: seq<Record>)
    requires |rs| > 0
    ensures AddAll(Missing, rs).Success? && AddAll(Missing, rs).value.Stored?
    ensures var ps := AddAll(Missing, rs).value.pages;
            Packed(ps) && AllRecords(ps) == NormalizeAll(rs)
            && |ps| == (|rs| + BLOCK_FACTOR - 1) / BLOCK_FACTOR
  {
    var n := |rs| - 1;
    var d: Disk := Missing;
    if n > 0 {
      AddAllFromMissing(rs[..n]);
      d := AddAll(Missing, rs[..n]).value;
    } else {
      assert AddAll(Missing, rs[..n]) == Success(Missing);
    }
    AddLast(d, rs);
    PageCount(AddAll(Missing, rs).value.pages);
  }

  /** Adding the last of rs to a file built from missing by adding the others. */
  lemma AddLast(d: Disk, rs: seq<Record>)
    requires rs != []
    requires (d.Missing? && |rs| == 1) || (d.Stored? && Packed(d.pages) && AllRecords(d.pages) == NormalizeAll(rs[..|rs| - 1]))
    ensures Added(d, rs[|rs| - 1]).Success? && Packed(Added(d, rs[|rs| - 1]).value.pages)
    ensures AllRecords(Added(d, rs[|rs| - 1]).value.pages) == NormalizeAll(rs)
  {
    AddKeepsPacked(d, rs[|rs| - 1]);
    AddAppends(d, rs[|rs| - 1]);
    NormalizeAllSnoc(rs);
  }

  lemma NormalizeAllSnoc(rs: seq<Record>)
    requires rs != []
    ensures NormalizeAll(rs[..|rs| - 1]) + [Normalize(rs[|rs| - 1])] == NormalizeAll(rs)
  {
    var a := NormalizeAll(rs[..|rs| - 1]) + [Normalize(rs[|rs| - 1])];
    assert |a| == |rs|;
    forall i | 0 <= i < |rs|
      ensures a[i] == NormalizeAll(rs)[i]
    {
      if i < |rs| - 1 {
        assert a[i] == NormalizeAll(rs[..|rs| - 1])[i];
      }
    }
  }

  /** `add` stores the record as it reads back, so the file keeps holding records a page read back gives. */
  lemma AddedCanonical(d: Disk, r: Record)
    requires AllCanonical(d) && d != Stored([])
    ensures AllCanonical(Added(d, r).value)
  {
    NormalizeCanonical(r);
  }

  /** `scanAll` after `add(record)` lists the records it listed before, then the new one as it reads back. */
  lemma ScanAfterAdd(d: Disk, r: Record)
    requires d != Stored([])
    ensures Scan(Added(d, r).value) == Success(Contents(d) + [Normalize(r)])
    ensures d.Stored? ==> Scan(Added(d, r).value) == Success(Scan(d).value + [Normalize(r)])
  {
    AddAppends(d, r);
  }

  /** `scanAll` after n > 0 adds to a missing file lists the added records in insertion order, as they read back. */
  lemma ScanAfterAdds(rs: seq<Record>)
    requires |rs| > 0
    ensures AddAll(Missing, rs).Success?
    ensures Scan(AddAll(Missing, rs).value) == Success(NormalizeAll(rs))
  {
    AddAllFromMissing(rs);
  }

  // ---------------------------------------------------------------------------
  // `add` on the file, block by block

  /**
   * `add(record)` on the file d: a missing file gets one page [record]; otherwise
   * the last page, at offset filesize - SIZE_OF_PAGE, is read, and either rewritten
   * with the record appended or followed by a new page [record].
   */
  method AddToDisk(d: Disk, r: Record) returns (res: Result<Disk, FileError>)
    requires AllCanonical(d)
    ensures res == Added(d, r)
  {
    match d
    case Missing =>
      var page := NewPage(r);
      return Success(Stored([page]));
    case Stored(ps) =>
      var filesize := |ps| * SIZE_OF_PAGE;
      var pos := filesize - SIZE_OF_PAGE;
      if pos < 0 {
        return Failure(NegativeSeek);
      }
      assert pos / SIZE_OF_PAGE == |ps| - 1;
      var page := ps[pos / SIZE_OF_PAGE];
      if |page.records| < BLOCK_FACTOR {
        assert forall x :: x in page.records ==> Canonical(x);
        page := AppendToPage(page, r);
        return Success(Stored(ps[pos / SIZE_OF_PAGE := page]));
      } else {
        page := NewPage(r);
        return Success(Stored(ps + [page]));
      }
  }

  /** `Page([record])` written and read back: the record as it reads back, and no next page. */
  method NewPage(r: Record) returns (p: Page)
    ensures p == Page([Normalize(r)], -1)
  {
    var page := Page([r], -1);
    assert NormalizeAll([r]) == [Normalize(r)];
    p := ReadBack(page);
  }

  /** `page.records.append(record)` followed by rewriting the page and reading it back. */
  method AppendToPage(page: Page, r: Record) returns (p: Page)
    requires forall x :: x in page.records ==> Canonical(x)
    ensures p == Page(page.records + [Normalize(r)], page.next)
  {
    ReadBackAppend(page.records, r, page.next);
    p := ReadBack(Page(page.records + [r], page.next));
  }

  // ---------------------------------------------------------------------------
  // The data file object

  class DataFile {
    /** The file the DataFile's file name refers to. */
    var disk: Disk

    ghost predicate Valid()
      reads this
    {
      AllCanonical(disk)
    }

    /** `DataFile(filename)`: the object only names the file. */
    constructor (existing: Disk)
      requires AllCanonical(existing)
      ensures Valid() && disk == existing
    {
      disk := existing;
    }

    /** `add(record)`: the file becomes the one `Added` gives, or stays as it is when that is an error. */
    method Add(r: Record) returns (res: Result<(), FileError>)
      requires Valid()
      modifies this
      ensures Valid()
      ensures Added(old(disk), r).Success? ==> res == Success(()) && disk == Added(old(disk), r).value
      ensures Added(old(disk), r).Failure? ==> res == Failure(NegativeSeek) && disk == old(disk)
    {
      if disk != Stored([]) {
        AddedCanonical(disk, r);
      }
      var added := AddToDisk(disk, r);
      match added
      case Failure(e) =>
        return Failure(e);
      case Success(d) =>
        disk := d;
        return Success(());
    }

    /** `scanAll`: the records of pages 0 .. filesize / SIZE_OF_PAGE - 1, page by page. */
    method ScanAll() returns (res: Result<seq<Record>, FileError>)
      ensures res == Scan(disk)
    {
      if disk.Missing? {
        return Failure(FileNotFound);
      }
      var filesize := |disk.pages| * SIZE_OF_PAGE;
      var numPages := filesize / SIZE_OF_PAGE;
      var listed: seq<Record> := [];
      for i := 0 to numPages
        invariant listed == AllRecords(disk.pages[..i])
      {
        var page := disk.pages[i];
        AllRecordsStep(disk.pages, i);
        for j := 0 to |page.records|
          invariant listed == AllRecords(disk.pages[..i]) + page.records[..j]
        {
          listed := listed + [page.records[j]];
        }
        assert page.records[..|page.records|] == page.records;
      }
      assert disk.pages[..numPages] == disk.pages;
      res := Success(listed);
    }
  }
}
