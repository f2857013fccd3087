// What the file system answers about a physical path, and the cached view of it.
module Options {
  datatype Option<+T> = None | Some(value: T)
}

module Storage {
  import opened Options
  import opened Paths

  /** A query either answers or fails with an error code. */
  datatype Answer<+T> = Ok(value: T) | Error(code: nat)

  datatype SizeInfo = SizeInfo(size: nat, isStub: bool)

  /** regular: an existing regular file; sizeInfo: stat; recall: the recall attribute
      (user.TSMRecT); migrated: the migration attribute (user.storm.migrated). */
  datatype Facts = Facts(regular: bool, sizeInfo: Answer<SizeInfo>, recall: Answer<bool>, migrated: Answer<bool>)

  type Disk = map<Path, Facts>

  const ENOENT := 2
  const MISSING := Facts(false, Error(ENOENT), Error(ENOENT), Error(ENOENT))

  function Look(disk: Disk, path: Path): Facts {
    if path in disk then disk[path] else MISSING
  }

  predicate RecallInProgress(disk: Disk, path: Path) {
    Look(disk, path).recall == Ok(true)
  }

  predicate SeenAsStub(x: Facts) {
    x.sizeInfo.Ok? && x.sizeInfo.value.isStub
  }

  /** NoBytes stands for the locality the code calls none. */
  datatype Locality = Unavailable | OnDisk | OnTape | OnDiskAndTape | Lost | NoBytes

  /** The locality a path should have, from the three answers alone: the recall attribute
      matters only for a file that is not a stub, and any failure that matters wins. */
  function LocalityOf(x: Facts): Locality {
    match x.sizeInfo
    case Error(_) => Unavailable
    case Ok(info) =>
      if info.size == 0 then NoBytes
      else if x.migrated.Error? || (!info.isStub && x.recall.Error?) then Unavailable
      else if info.isStub || x.recall.value then
        if x.migrated.value then OnTape else Lost
      else
        if x.migrated.value then OnDiskAndTape else OnDisk
  }

  /** The three questions that may fail. */
  datatype Facet = Recall | Size | Migrated

  datatype Query = Query(path: Path, facet: Facet)

  /** What each locality means in terms of the three answers.  `known` says that every answer
      that matters to a file with bytes was given. */
  ghost predicate Fits(l: Locality, x: Facts) {
    var sized := x.sizeInfo.Ok? && x.sizeInfo.value.size != 0;
    var stub := x.sizeInfo.Ok? && x.sizeInfo.value.isStub;
    var recalled := x.recall == Ok(true);
    var known := sized && x.migrated.Ok? && (stub || x.recall.Ok?);
    && (l == NoBytes <==> x.sizeInfo.Ok? && !sized)
    && (l == Unavailable <==> x.sizeInfo.Error? || (sized && !known))
    && (l == OnTape <==> known && (stub || recalled) && x.migrated == Ok(true))
    && (l == Lost <==> known && (stub || recalled) && x.migrated == Ok(false))
    && (l == OnDiskAndTape <==> known && !stub && !recalled && x.migrated == Ok(true))
    && (l == OnDisk <==> known && !stub && !recalled && x.migrated == Ok(false))
  }

  lemma BoolAnswer(a: Answer<bool>)
    ensures a.Error? || a == Ok(true) || a == Ok(false)
  {
    match a
    case Error(_) =>
    case Ok(v) => if v { assert a == Ok(true); } else { assert a == Ok(false); }
  }

  /** The six localities, each exactly by the answers of the storage. */
  lemma LocalityFits(x: Facts)
    ensures Fits(LocalityOf(x), x)
  {
    BoolAnswer(x.recall);
    BoolAnswer(x.migrated);
  }

  class LocalStorage {
    var disk: Disk
    /** Every query that got an answer, as often as it was asked. */
    ghost var answered: multiset<Query>

    constructor (disk: Disk)
      ensures this.disk == disk && answered == multiset{}
    {
      this.disk := disk;
      answered := multiset{};
    }

    method IsRegularFile(path: Path) returns (r: bool)
      ensures r == Look(disk, path).regular
    {
      r := Look(disk, path).regular;
    }

    method IsInProgress(path: Path) returns (r: Answer<bool>)
      modifies this`answered
      ensures r == Look(disk, path).recall
      ensures answered == if r.Ok? then old(answered) + multiset{Query(path, Recall)} else old(answered)
    {
      r := Look(disk, path).recall;
      if r.Ok? { answered := answered + multiset{Query(path, Recall)}; }
    }

    method FileSizeInfo(path: Path) returns (r: Answer<SizeInfo>)
      modifies this`answered
      ensures r == Look(disk, path).sizeInfo
      ensures answered == if r.Ok? then old(answered) + multiset{Query(path, Size)} else old(answered)
    {
      r := Look(disk, path).sizeInfo;
      if r.Ok? { answered := answered + multiset{Query(path, Size)}; }
    }

    method IsOnTape(path: Path) returns (r: Answer<bool>)
      modifies this`answered
      ensures r == Look(disk, path).migrated
      ensures answered == if r.Ok? then old(answered) + multiset{Query(path, Migrated)} else old(answered)
    {
      r := Look(disk, path).migrated;
      if r.Ok? { answered := answered + multiset{Query(path, Migrated)}; }
    }

    /** Creates the recall attribute, unless the file system refuses. */
    method CreateRecallAttribute(path: Path, refused: bool)
      modifies this`disk
      ensures disk == if refused then old(disk) else WithRecall(old(disk), {path})
    {
      if !refused && path in disk {
        disk := disk[path := disk[path].(recall := Ok(true))];
      }
    }
  }

  /** The disk after the recall attribute was created on some paths. */
  function WithRecall(disk: Disk, paths: set<Path>): (r: Disk)
    ensures r.Keys == disk.Keys
    ensures forall p :: p in disk && p in paths ==> r[p] == disk[p].(recall := Ok(true))
    ensures forall p :: p in disk && p !in paths ==> r[p] == disk[p]
  {
    map p | p in disk :: if p in paths then disk[p].(recall := Ok(true)) else disk[p]
  }

  /** The facets with a known answer. */
  datatype Known = Known(recall: bool, size: bool, migrated: bool)

  predicate Knows(k: Known, f: Facet) {
    match f
    case Recall => k.recall
    case Size => k.size
    case Migrated => k.migrated
  }

  /** Between two moments at which a cache knew `before` and `after`, and the storage had
      given `asked` and `answered`, nothing was forgotten and each answer told something new:
      no facet of the path was answered twice. */
  ghost predicate OnceEach(path: Path, before: Known, asked: multiset<Query>, after: Known, answered: multiset<Query>) {
    && (forall f :: Knows(before, f) ==> Knows(after, f))
    && (forall q :: answered[q] == asked[q] +
          if q.path == path && Knows(after, q.facet) && !Knows(before, q.facet) then 1 else 0)
  }

  lemma NothingAsked(path: Path, k: Known, m: multiset<Query>)
    ensures OnceEach(path, k, m, k, m)
  {
  }

  lemma AskedAnew(path: Path, before: Known, after: Known, facet: Facet, m: multiset<Query>)
    requires !Knows(before, facet) && forall f :: Knows(after, f) <==> Knows(before, f) || f == facet
    ensures OnceEach(path, before, m, after, m + multiset{Query(path, facet)})
  {
  }

  lemma OnceEachComposes(path: Path, a: Known, m: multiset<Query>, b: Known, n: multiset<Query>, c: Known, o: multiset<Query>)
    requires OnceEach(path, a, m, b, n) && OnceEach(path, b, n, c, o)
    ensures OnceEach(path, a, m, c, o)
  {
  }

  /** What `GetLocality` comes to know: the size; of a file with bytes also the migration
      attribute, and the recall attribute unless it is a stub.  A failed query is not known. */
  function KnownForLocality(k: Known, x: Facts): Known {
    if x.sizeInfo.Error? then k
    else if x.sizeInfo.value.size == 0 then k.(size := true)
    else Known(k.recall || (!x.sizeInfo.value.isStub && x.recall.Ok?), true, k.migrated || x.migrated.Ok?)
  }

  /** Which facets a first evaluation learns; and a readable facet it does not learn could not
      have changed the locality. */
  lemma LearntForLocality(x: Facts, y: Facts)
    ensures var k := KnownForLocality(Known(false, false, false), x);
            var sized := x.sizeInfo.Ok? && x.sizeInfo.value.size != 0;
            && (k.size <==> x.sizeInfo.Ok?)
            && (k.migrated <==> sized && x.migrated.Ok?)
            && (k.recall <==> sized && !x.sizeInfo.value.isStub && x.recall.Ok?)
            && (y == x.(recall := y.recall) && x.recall.Ok? && !k.recall ==> LocalityOf(y) == LocalityOf(x))
            && (y == x.(migrated := y.migrated) && x.migrated.Ok? && !k.migrated ==> LocalityOf(y) == LocalityOf(x))
  {
  }

  /** Looks at one path, asking each question again only as long as it fails. */
  class ExtendedFileStatus {
    const storage: LocalStorage
    const path: Path
    var error: Option<nat>
    var inProgress: Option<bool>
    var sizeInfo: Option<SizeInfo>
    var onTape: Option<bool>

    ghost function Truth(): Facts
      reads this, storage`disk
    {
      Look(storage.disk, path)
    }

    ghost function Cached(): Known
      reads this
    {
      Known(inProgress.Some?, sizeInfo.Some?, onTape.Some?)
    }

    /** Cached answers are the true ones. */
    ghost predicate Valid()
      reads this, storage`disk
    {
      && (inProgress.Some? ==> Truth().recall == Ok(inProgress.value))
      && (sizeInfo.Some? ==> Truth().sizeInfo == Ok(sizeInfo.value))
      && (onTape.Some? ==> Truth().migrated == Ok(onTape.value))
    }

    constructor (storage: LocalStorage, path: Path)
      ensures Valid() && error.None? && this.storage == storage && this.path == path
      ensures Cached() == Known(false, false, false)
    {
      this.storage := storage;
      this.path := path;
      error, inProgress, sizeInfo, onTape := None, None, None, None;
    }

    method IsInProgress() returns (r: bool)
      requires Valid()
      modifies this, storage`answered
      ensures Valid() && OnceEach(path, old(Cached()), old(storage.answered), Cached(), storage.answered)
      ensures Cached() == old(Cached()).(recall := old(Cached()).recall || Truth().recall.Ok?)
      ensures r == (Truth().recall == Ok(true))
      ensures error == if Truth().recall.Error? then Some(Truth().recall.code) else old(error)
    {
      hide OnceEach;
      NothingAsked(path, Cached(), storage.answered);
      r := false;
      if inProgress.Some? {
        r := inProgress.value;
      } else {
        var result := storage.IsInProgress(path);
        match result
        case Error(code) => error := Some(code);
        case Ok(v) =>
          inProgress := Some(v);
          AskedAnew(path, old(Cached()), Cached(), Recall, old(storage.answered));
          r := v;
      }
    }

    method FetchSize() returns (info: SizeInfo)
      requires Valid()
      modifies this, storage`answered
      ensures Valid() && OnceEach(path, old(Cached()), old(storage.answered), Cached(), storage.answered)
      ensures Cached() == old(Cached()).(size := old(Cached()).size || Truth().sizeInfo.Ok?)
      ensures Truth().sizeInfo.Ok? ==> info == Truth().sizeInfo.value
      ensures Truth().sizeInfo.Error? ==> info == SizeInfo(0, false)
      ensures error == if Truth().sizeInfo.Error? then Some(Truth().sizeInfo.code) else old(error)
    {
      hide OnceEach;
      NothingAsked(path, Cached(), storage.answered);
      info := SizeInfo(0, false);
      if sizeInfo.Some? {
        info := sizeInfo.value;
      } else {
        var result := storage.FileSizeInfo(path);
        match result
        case Error(code) => error := Some(code);
        case Ok(v) =>
          sizeInfo := Some(v);
          AskedAnew(path, old(Cached()), Cached(), Size, old(storage.answered));
          info := v;
      }
    }

    method IsStub() returns (r: bool)
      requires Valid()
      modifies this, storage`answered
      ensures Valid() && OnceEach(path, old(Cached()), old(storage.answered), Cached(), storage.answered)
      ensures Cached() == old(Cached()).(size := old(Cached()).size || Truth().sizeInfo.Ok?)
      ensures r == SeenAsStub(Truth())
      ensures error == if Truth().sizeInfo.Error? then Some(Truth().sizeInfo.code) else old(error)
    {
      var info := FetchSize();
      r := info.isStub;
    }

    method FileSize() returns (r: nat)
      requires Valid()
      modifies this, storage`answered
      ensures Valid() && OnceEach(path, old(Cached()), old(storage.answered), Cached(), storage.answered)
      ensures Cached() == old(Cached()).(size := old(Cached()).size || Truth().sizeInfo.Ok?)
      ensures r == if Truth().sizeInfo.Ok? then Truth().sizeInfo.value.size else 0
      ensures error == if Truth().sizeInfo.Error? then Some(Truth().sizeInfo.code) else old(error)
    {
      var info := FetchSize();
      r := info.size;
    }

    method IsOnTape() returns (r: bool)
      requires Valid()
      modifies this, storage`answered
      ensures Valid() && OnceEach(path, old(Cached()), old(storage.answered), Cached(), storage.answered)
      ensures Cached() == old(Cached()).(migrated := old(Cached()).migrated || Truth().migrated.Ok?)
      ensures r == (Truth().migrated == Ok(true))
      ensures error == if Truth().migrated.Error? then Some(Truth().migrated.code) else old(error)
    {
      hide OnceEach;
      NothingAsked(path, Cached(), storage.answered);
      r := false;
      if onTape.Some? {
        r := onTape.value;
      } else {
        var result := storage.IsOnTape(path);
        match result
        case Error(code) => error := Some(code);
        case Ok(v) =>
          onTape := Some(v);
          AskedAnew(path, old(Cached()), Cached(), Migrated, old(storage.answered));
          r := v;
      }
    }

    /** The cached evaluation agrees with `LocalityOf`; an earlier error sticks; only the
        facets that are needed are asked for, and each is answered at most once. */
    method GetLocality() returns (r: Locality)
      requires Valid()
      modifies this, storage`answered
      ensures Valid() && OnceEach(path, old(Cached()), old(storage.answered), Cached(), storage.answered)
      ensures r == if old(error).Some? then Unavailable else LocalityOf(Truth())
      ensures error.Some? <==> r == Unavailable
      ensures old(error).None? ==> Fits(r, Truth())
      ensures old(error).None? ==> Cached() == KnownForLocality(old(Cached()), Truth())
    {
      hide OnceEach, Fits;
      LocalityFits(Truth());
      ghost var known, asked := Cached(), storage.answered;
      var size := FileSize();
      if error.Some? {
        return Unavailable;
      }
      if size == 0 {
        return NoBytes;
      }
      ghost var sized, one := Cached(), storage.answered;
      var stub := IsStub();
      ghost var seen, two := Cached(), storage.answered;
      OnceEachComposes(path, known, asked, sized, one, seen, two);
      var recalled := false;
      if !stub {
        recalled := IsInProgress();
        OnceEachComposes(path, known, asked, seen, two, Cached(), storage.answered);
      }
      ghost var awaited, three := Cached(), storage.answered;
      var disk := !(stub || recalled);
      var tape := IsOnTape();
      OnceEachComposes(path, known, asked, awaited, three, Cached(), storage.answered);
      if error.Some? {
        return Unavailable;
      }
      if disk {
        r := if tape then OnDiskAndTape else OnDisk;
      } else {
        r := if tape then OnTape else Lost;
      }
    }
  }
}
