/** `load_db_from_deck`: the deck archive's `collection.anki2` is extracted
    into a directory under the temp directory whose name is derived from the
    deck path, and the database is opened there. The temp directory's files
    are the state this operation changes. */
module Archive {
  import opened Wrappers

  /** A filesystem path as its list of components; `/` appends one. */
  datatype Path = Path(parts: seq<string>)

  function Child(dir: Path, name: string): Path
  {
    Path(dir.parts + [name])
  }

  const ExtractPrefix: string := "anki-sample-"
  const CollectionMember: string := "collection.anki2"

  /** The extraction directory's name: the fixed prefix followed by the hex
      MD5 digest of the deck path's text. The digest is a parameter. */
  function ExtractionDirName(deckPath: string, digest: string -> string): string
  {
    ExtractPrefix + digest(deckPath)
  }

  /** The extraction directory: a direct child of the temp directory, named
      by the prefix and the deck path's digest. */
  function ExtractionDir(tempDir: Path, deckPath: string, digest: string -> string): (d: Path)
    ensures |d.parts| == |tempDir.parts| + 1
    ensures d.parts[..|tempDir.parts|] == tempDir.parts
    ensures d.parts[|tempDir.parts|] == ExtractPrefix + digest(deckPath)
  {
    Child(tempDir, ExtractionDirName(deckPath, digest))
  }

  /** Where the database is extracted to and opened from: the member's name
      directly inside the extraction directory. */
  function CollectionPath(tempDir: Path, deckPath: string, digest: string -> string): (p: Path)
    ensures Within(p, ExtractionDir(tempDir, deckPath, digest))
    ensures |p.parts| == |tempDir.parts| + 2
    ensures p.parts[|tempDir.parts| + 1] == CollectionMember
  {
    Child(ExtractionDir(tempDir, deckPath, digest), CollectionMember)
  }

  /** `q` lies inside the directory `dir` (or is `dir` itself). */
  ghost predicate Within(q: Path, dir: Path)
  {
    |dir.parts| <= |q.parts| && q.parts[..|dir.parts|] == dir.parts
  }

  /** Two deck paths share an extraction directory exactly when their digests
      agree; in particular the same path always gets the same directory. */
  lemma ExtractionDirKeyedByDigest(tempDir: Path, p: string, q: string, digest: string -> string)
    ensures (ExtractionDir(tempDir, p, digest) == ExtractionDir(tempDir, q, digest)) == (digest(p) == digest(q))
  {
    var n := |tempDir.parts|;
    var a, b := ExtractionDirName(p, digest), ExtractionDirName(q, digest);
    if ExtractionDir(tempDir, p, digest) == ExtractionDir(tempDir, q, digest) {
      assert a == ExtractionDir(tempDir, p, digest).parts[n];
      assert a[|ExtractPrefix|..] == digest(p) && b[|ExtractPrefix|..] == digest(q);
    }
  }

  /** The database file lies two levels below the temp directory, in the
      directory named `anki-sample-` followed by the deck path's digest, and
      is named `collection.anki2`. */
  lemma CollectionPathUnderTempDir(tempDir: Path, deckPath: string, digest: string -> string)
    ensures var p := CollectionPath(tempDir, deckPath, digest).parts;
            && |p| == |tempDir.parts| + 2
            && p[..|tempDir.parts|] == tempDir.parts
            && p[|tempDir.parts|] == ExtractPrefix + digest(deckPath)
            && p[|tempDir.parts|][..|ExtractPrefix|] == ExtractPrefix
            && p[|tempDir.parts| + 1] == CollectionMember
  {
    var p := CollectionPath(tempDir, deckPath, digest).parts;
    assert p == tempDir.parts + [ExtractPrefix + digest(deckPath), CollectionMember];
  }

  /** What `zipfile.ZipFile(deck_path)` finds at the deck path. */
  datatype Archive = NoSuchFile | NotAZip | Zip(members: map<string, seq<bv8>>)

  /** The exceptions `load_db_from_deck` lets escape: `FileNotFoundError`,
      `BadZipFile`, and `KeyError` for a missing member. */
  datatype ArchiveError = ArchiveNotFound | BadArchive | MemberNotFound(name: string)

  /** The files under the temp directory after extracting `archive`: the
      member written (or overwritten) at `CollectionPath`, or nothing changed
      when the archive could not be read. */
  function AfterExtract(files: map<Path, seq<bv8>>, tempDir: Path, deckPath: string,
                        digest: string -> string, archive: Archive): (after: map<Path, seq<bv8>>)
    ensures archive.Zip? && CollectionMember in archive.members ==>
              var p := CollectionPath(tempDir, deckPath, digest);
              p in after && after[p] == archive.members[CollectionMember]
    ensures !(archive.Zip? && CollectionMember in archive.members) ==> after == files
    ensures forall q :: q != CollectionPath(tempDir, deckPath, digest) ==>
              (q in after <==> q in files) && (q in files ==> after[q] == files[q])
  {
    if archive.Zip? && CollectionMember in archive.members then
      files[CollectionPath(tempDir, deckPath, digest) := archive.members[CollectionMember]]
    else
      files
  }

  /** Extraction is idempotent: extracting the same deck again leaves the
      temp directory as the first extraction left it. */
  lemma ExtractIdempotent(files: map<Path, seq<bv8>>, tempDir: Path, deckPath: string,
                          digest: string -> string, archive: Archive)
    ensures var once := AfterExtract(files, tempDir, deckPath, digest, archive);
            AfterExtract(once, tempDir, deckPath, digest, archive) == once
  {
  }

  /** Extracting one deck leaves every file outside its extraction directory
      untouched; in particular the extracted database of any deck path with a
      different digest. */
  lemma ExtractKeepsOtherDecks(files: map<Path, seq<bv8>>, tempDir: Path, deckPath: string,
                               other: string, digest: string -> string, archive: Archive)
    ensures var after := AfterExtract(files, tempDir, deckPath, digest, archive);
            forall q :: !Within(q, ExtractionDir(tempDir, deckPath, digest)) ==>
              (q in after <==> q in files) && (q in files ==> after[q] == files[q])
    ensures digest(other) != digest(deckPath) ==>
              var after := AfterExtract(files, tempDir, deckPath, digest, archive);
              var q := CollectionPath(tempDir, other, digest);
              (q in after <==> q in files) && (q in files ==> after[q] == files[q])
  {
    ExtractionDirKeyedByDigest(tempDir, deckPath, other, digest);
    var d, e := ExtractionDir(tempDir, deckPath, digest), ExtractionDir(tempDir, other, digest);
    var a, b := Child(d, CollectionMember).parts, Child(e, CollectionMember).parts;
    assert a[..|d.parts|] == d.parts && b[..|e.parts|] == e.parts;
  }

  /** The temp directory's files, as far as this program sees them. */
  class TempFiles {
    var files: map<Path, seq<bv8>>

    constructor (existing: map<Path, seq<bv8>>)
      ensures files == existing
    {
      files := existing;
    }

    /** Extract the deck's database and return the path it is opened from.
        The error cases leave the files as they were. */
    method LoadDbFromDeck(tempDir: Path, deckPath: string, digest: string -> string, archive: Archive)
      returns (r: Result<Path, ArchiveError>)
      modifies this
      ensures archive.NoSuchFile? ==> r == Failure(ArchiveNotFound)
      ensures archive.NotAZip? ==> r == Failure(BadArchive)
      ensures archive.Zip? && CollectionMember !in archive.members ==>
                r == Failure(MemberNotFound(CollectionMember))
      ensures r.Success? <==> archive.Zip? && CollectionMember in archive.members
      ensures r.Success? ==> r.value == CollectionPath(tempDir, deckPath, digest)
                             && r.value in files && files[r.value] == archive.members[CollectionMember]
      ensures files == AfterExtract(old(files), tempDir, deckPath, digest, archive)
    {
      var dir := ExtractionDir(tempDir, deckPath, digest);
      match archive
      case NoSuchFile =>
        r := Failure(ArchiveNotFound);
      case NotAZip =>
        r := Failure(BadArchive);
      case Zip(members) =>
        if CollectionMember !in members {
          r := Failure(MemberNotFound(CollectionMember));
        } else {
          var target := Child(dir, CollectionMember);
          files := files[target := members[CollectionMember]];
          r := Success(target);
        }
    }
  }
}
