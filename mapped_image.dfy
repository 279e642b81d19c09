/**
 * MappedImage.cs: an image file with its perceptual hash, its size, its
 * resolution, its last write time and a grayscale flag that is computed the
 * first time it is read and cached afterwards.
 */
module MappedImages {
  import opened Wrappers
  import opened Hamming
  import GrayscaleChecker

  const Int32Min: int := -0x8000_0000
  const Int32Max: int := 0x7FFF_FFFF
  const Int64Max: int := 0x7FFF_FFFF_FFFF_FFFF
  /** DateTime.MaxValue.Ticks; a DateTime is modelled by its tick count. */
  const MaxTicks: int := 3155378975999999999

  /** C# `int` multiplication, which wraps around modulo 2^32. */
  function Int32Mul(a: int, b: int): (r: int)
    ensures Int32Min <= r <= Int32Max
    ensures Int32Min <= a * b <= Int32Max ==> r == a * b
  {
    var m := (a * b - Int32Min) % 0x1_0000_0000;
    m + Int32Min
  }

  /**
   * A MappedImage as the ranking and grouping code reads it: its properties
   * and the value IsGrayscale yields (the same on every read, see
   * `MappedImage.IsGrayscale`).
   */
  datatype Photo = Photo(id: int, physicalPath: string, hash: Hash, size: int, resolution: int,
                         lastWriteTime: int, isGrayscale: bool)

  /** The ranges the properties of a MappedImage take: a file length, an `int` resolution, a DateTime. */
  predicate WellFormed(p: Photo)
  {
    0 <= p.size <= Int64Max && Int32Min <= p.resolution <= Int32Max && 0 <= p.lastWriteTime <= MaxTicks
  }

  /** ImageDiff between two photos. */
  function PhotoDiff(a: Photo, b: Photo): int
  {
    ImageDiff(a.hash, b.hash)
  }

  /** What the constructor reads from the file system: FileInfo.Length and FileInfo.LastWriteTime. */
  datatype FileFacts = FileFacts(length: int, lastWriteTime: int)

  datatype CreateError = FileNotFound(path: string)

  class MappedImage {
    var id: int
    const physicalPath: string
    const hash: Hash
    const size: int
    const resolution: int
    const lastWriteTime: int
    /** The pixels that loading `physicalPath` yields when the grayscale flag is first read. */
    const pixels: array2<GrayscaleChecker.Rgba32>
    /** The Lazy<bool> cell behind IsGrayscale. */
    var isGrayscaleValue: Option<bool>
    /** How often the grayscale check has run. */
    ghost var evaluations: nat

    /** The cell has run at most once, is filled exactly when it has run, and holds the check's answer. */
    ghost predicate Valid()
      reads this, pixels
    {
      evaluations <= 1
      && (isGrayscaleValue.None? <==> evaluations == 0)
      && (isGrayscaleValue.Some? ==> isGrayscaleValue.value == GrayscaleChecker.IsGrayscale(pixels, resolution))
    }

    /** The image as a value, with the grayscale flag its cell yields. */
    ghost function View(): Photo
      reads this, pixels
    {
      Photo(id, physicalPath, hash, size, resolution, lastWriteTime, GrayscaleChecker.IsGrayscale(pixels, resolution))
    }

    /** The private constructor, once the file is known to exist; the cell starts empty. */
    constructor (physicalPath: string, hash: Hash, resolution: int, file: FileFacts, pixels: array2<GrayscaleChecker.Rgba32>)
      ensures this.physicalPath == physicalPath && this.hash == hash && this.resolution == resolution
      ensures size == file.length && lastWriteTime == file.lastWriteTime && this.pixels == pixels
      ensures id == 0 && isGrayscaleValue == None && evaluations == 0
      ensures Valid()
    {
      this.physicalPath := physicalPath;
      this.hash := hash;
      size := file.length;
      this.resolution := resolution;
      lastWriteTime := file.lastWriteTime;
      this.pixels := pixels;
      id := 0;
      isGrayscaleValue := None;
      evaluations := 0;
    }

    /**
     * CreateAsync: the resolution is width times height of the decoded image
     * (an `int` product), taken before the image is handed to the hash
     * algorithm, whose answer is `hash`. `file` is the file-info lookup done
     * after decoding, None when it finds no file, which is a FileNotFound
     * error. A file missing before decoding fails in the image loader, which
     * is not part of this model.
     */
    static method CreateAsync(physicalPath: string, img: array2<GrayscaleChecker.Rgba32>, hash: Hash,
                              file: Option<FileFacts>) returns (r: Result<MappedImage, CreateError>)
      ensures r.Failure? <==> file.None?
      ensures r.Failure? ==> r.error == FileNotFound(physicalPath)
      ensures r.Success? ==>
        var m := r.value;
        fresh(m) && m.Valid() && m.isGrayscaleValue == None
        && m.resolution == Int32Mul(img.Length0, img.Length1) && m.hash == hash && m.physicalPath == physicalPath
        && m.size == file.value.length && m.lastWriteTime == file.value.lastWriteTime && m.pixels == img
    {
      var resolution := Int32Mul(img.Length0, img.Length1);
      if file.None? {
        return Failure(FileNotFound(physicalPath));
      }
      var m := new MappedImage(physicalPath, hash, resolution, file.value, img);
      r := Success(m);
    }

    /**
     * IsGrayscale: the first read runs the grayscale check and stores its
     * answer; later reads return the stored answer without running it again.
     */
    method IsGrayscale() returns (g: bool)
      requires Valid()
      modifies this
      ensures Valid() && isGrayscaleValue == Some(g)
      ensures g == View().isGrayscale && View() == old(View())
      ensures evaluations == (if old(isGrayscaleValue).None? then 1 else old(evaluations))
    {
      if isGrayscaleValue.None? {
        g := GrayscaleChecker.IsImageGrayscale(pixels, resolution);
        isGrayscaleValue := Some(g);
        evaluations := evaluations + 1;
      } else {
        g := isGrayscaleValue.value;
      }
    }

    /** ImageDiff: the Hamming distance of the two hashes, between 0 and 64, zero exactly for equal hashes. */
    function ImageDiff(other: MappedImage): (r: int)
      ensures 0 <= r <= 64
      ensures r == 0 <==> hash == other.hash
    {
      ImageDiffRange(hash, other.hash);
      ImageDiffZero(hash, other.hash);
      Hamming.ImageDiff(hash, other.hash)
    }

    /**
     * The numerator of ImageSimilarityRatio, which divides it by 64.0: the
     * number of equal bits, 64 exactly for equal hashes.
     */
    function SimilarityNumerator(other: MappedImage): (r: int)
      ensures 0 <= r <= 64
      ensures r == 64 <==> hash == other.hash
    {
      64 - ImageDiff(other)
    }
  }

  /** Two hashes two bits apart, as p1 and p2 of the sample set are, are 62/64 similar. */
  lemma TwoBitsApartSimilarity(a: MappedImage, b: MappedImage)
    requires b.hash == a.hash ^ 3
    ensures a.SimilarityNumerator(b) == 62
  {
    ImageDiffTwoBits(a.hash);
  }

  /** Similarity does not depend on the direction of the comparison. */
  lemma SimilaritySymmetric(a: MappedImage, b: MappedImage)
    ensures a.SimilarityNumerator(b) == b.SimilarityNumerator(a)
  {
    ImageDiffSymmetric(a.hash, b.hash);
  }
}
