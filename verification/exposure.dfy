/**
 * `openCI` from `CI/data.py`: locate one exposure's multi-extension
 * container, check its camera manifest against the extensions present, and
 * apply the camera relabel to exposures taken before 2 April 2019.
 *
 * The filesystem is a map from path to container; a path is "present" when it
 * is a key. Extension lookups are case-insensitive, as in fitsio: the
 * extension map is keyed by lower-case names and a requested name is
 * lower-cased before it is looked up. The header of HDU 1 is addressed by
 * position, so the relabel (which renames entries of the name map) leaves it alone.
 */
module Exposure {
  import opened Wrappers
  import opened Text
  import opened Grids
  import Relabel

  /** The header keywords the model reads; a missing keyword is `None`. */
  datatype Header = Header(
    imagecam: Option<string>,
    night: Option<int>,
    expid: Option<int>,
    ccdtemp: Option<real>,
    exptime: Option<real>)

  /** One image extension: its own header and its pixel data. */
  datatype Hdu = Hdu(header: Header, data: Grid<real>)

  /** An opened container: extensions by lower-case name, and the header of HDU 1. */
  datatype Container = Container(hdus: map<string, Hdu>, primary: Header)

  /** `name in hdus` for a fitsio container. */
  predicate Has(c: Container, name: string)
  {
    Lower(name) in c.hdus
  }

  /** The data directory (`ROOT`). */
  const Root: string := "/project/projectdirs/desi/spectro/data"

  /** Nights before this one carry the swapped camera labels. */
  const Cutoff: int := 20190402

  /** The exposure tag: the id in decimal, zero-padded to eight characters (CI/data.py:25). */
  function ExpTag(expid: int): string
  {
    FormatZeroPadded(expid, 8)
  }

  /** The container's path: the data root, the night, the tag, then `ci-<tag>.fits.fz` (CI/data.py:26). */
  function ExposurePath(night: int, expid: int): string
  {
    Root + "/" + IntToString(night) + "/" + ExpTag(expid) + "/ci-" + ExpTag(expid) + ".fits.fz"
  }

  /**
   * For an exposure id below 10^8 the path is built from an eight-digit tag
   * that reads back as the id; the same tag names the directory and the file.
   */
  lemma ExposurePathLayout(night: int, expid: int)
    requires 0 <= expid < 100000000
    ensures exists tag: string ::
      && |tag| == 8 && AllDigits(tag) && ParseDigits(tag) == expid
      && ExposurePath(night, expid) == Root + "/" + IntToString(night) + "/" + tag + "/ci-" + tag + ".fits.fz"
  {
    assert Pow10(8) == 100000000;
    FormatZeroPaddedRoundTrip(expid, 8);
    var tag := ExpTag(expid);
    assert |tag| == 8 && AllDigits(tag) && ParseDigits(tag) == expid;
  }

  /** How `openCI` refuses an exposure. */
  datatype OpenError =
    | NotFound(path: string)
    | MissingImagecam(path: string)
    | MissingHdus(cameras: seq<string>, path: string)

  /** What became of the file handle by the time `openCI` returned or raised. */
  datatype Handle = NeverOpened | ClosedBeforeRaise | LeftOpen

  /** The pair `(hdus, hdr)` that `openCI` returns. */
  datatype Opened = Opened(hdus: Container, hdr: Header)

  datatype OpenOutcome = OpenOutcome(result: Result<Opened, OpenError>, handle: Handle)

  /** The cameras of the manifest that have no extension, in manifest order. */
  function MissingCameras(c: Container, expected: seq<string>): (missing: seq<string>)
    ensures forall x :: x in missing <==> x in expected && !Has(c, x)
    ensures |missing| <= |expected|
  {
    if expected == [] then []
    else (if Has(c, expected[0]) then [] else [expected[0]]) + MissingCameras(c, expected[1..])
  }

  /** Manifest order is kept: the missing cameras of a concatenation concatenate. */
  lemma {:induction false} MissingCamerasConcat(c: Container, e1: seq<string>, e2: seq<string>)
    ensures MissingCameras(c, e1 + e2) == MissingCameras(c, e1) + MissingCameras(c, e2)
    decreases |e1|
  {
    if e1 == [] {
      assert e1 + e2 == e2;
    } else {
      assert (e1 + e2)[0] == e1[0];
      assert (e1 + e2)[1..] == e1[1..] + e2;
      MissingCamerasConcat(c, e1[1..], e2);
    }
  }

  /** The camera names of an `IMAGECAM` value. */
  function Manifest(imagecam: string): seq<string>
  {
    Split(imagecam, ',')
  }

  /**
   * `openCI(night, expid)` against the filesystem `fs`. The manifest is
   * checked against the extensions as opened, before any relabel; the relabel
   * applies only to nights before `Cutoff`; the header returned is HDU 1's.
   */
  function OpenCI(fs: map<string, Container>, night: int, expid: int): (r: OpenOutcome)
    ensures var path := ExposurePath(night, expid);
      && (r.handle == NeverOpened <==> path !in fs)
      && (path !in fs ==> r.result == Failure(NotFound(path)))
      && (r.result.Success? <==> r.handle == LeftOpen)
      && (r.result.Failure? && path in fs ==> r.handle == ClosedBeforeRaise)
      && (path in fs && fs[path].primary.imagecam.None? ==> r.result == Failure(MissingImagecam(path)))
      && (r.result.Success? <==>
            && path in fs && fs[path].primary.imagecam.Some?
            && forall cam :: cam in Manifest(fs[path].primary.imagecam.value) ==> Has(fs[path], cam))
      && (r.result.Failure? && r.result.error.MissingHdus? ==>
            && path in fs && fs[path].primary.imagecam.Some?
            && r.result.error.path == path
            && r.result.error.cameras != []
            && r.result.error.cameras == MissingCameras(fs[path], Manifest(fs[path].primary.imagecam.value))
            && forall x :: x in r.result.error.cameras <==>
                 x in Manifest(fs[path].primary.imagecam.value) && !Has(fs[path], x))
      && (r.result.Success? ==>
            && r.result.value.hdr == fs[path].primary
            && r.result.value.hdus.primary == fs[path].primary
            && r.result.value.hdus.hdus ==
                 if night < Cutoff then Relabel.Relabelled(fs[path].hdus) else fs[path].hdus)
  {
    var path := ExposurePath(night, expid);
    if path !in fs then OpenOutcome(Failure(NotFound(path)), NeverOpened)
    else
      var hdus := fs[path];
      var hdr := hdus.primary;
      if hdr.imagecam.None? then OpenOutcome(Failure(MissingImagecam(path)), ClosedBeforeRaise)
      else
        var missing := MissingCameras(hdus, Manifest(hdr.imagecam.value));
        if missing != [] then
          assert missing[0] in missing;
          OpenOutcome(Failure(MissingHdus(missing, path)), ClosedBeforeRaise)
        else
          var relabelled := if night < Cutoff then hdus.(hdus := Relabel.SwapCameras(hdus.hdus)) else hdus;
          OpenOutcome(Success(Opened(relabelled, hdr)), LeftOpen)
  }

  /**
   * The manifest is checked before the relabel, not after it: an early
   * exposure whose manifest lists CIW and whose only extension is `ciw` is
   * accepted, and the container handed back then has no CIW extension.
   */
  lemma ManifestCheckedBeforeRelabel(data: Grid<real>)
    ensures var h := Header(Some("CIW"), None, None, None, None);
      var c := Container(map["ciw" := Hdu(h, data)], h);
      var fs := map[ExposurePath(20190320, 7) := c];
      var r := OpenCI(fs, 20190320, 7);
      r.result.Success? && !Has(r.result.value.hdus, "CIW") && Has(r.result.value.hdus, "CIE")
  {
    var h := Header(Some("CIW"), None, None, None, None);
    var c := Container(map["ciw" := Hdu(h, data)], h);
    assert Lower("CIW") == "ciw";
    assert Lower("CIE") == "cie";
    SplitWithoutSeparator("CIW", ',');
    assert Relabel.Partner("cie") == "ciw";
  }
}
