/**
 * `calibrate` from `CI/data.py`: up to three staged corrections applied to
 * every camera image of an exposure, in camera order.
 *
 *   steps >= 1  subtract the bias level (ADU);
 *   steps >= 2  subtract the dark level D0 * exp(-T0 / T) (ADU);
 *   steps >= 3  multiply by gain / EXPTIME (electrons per second).
 *
 * The coefficients are a map camera -> name -> value, as read from the
 * calibration file; the exponential is a parameter of the model.
 */
module Calibration {
  import opened Wrappers
  import opened Text
  import opened Grids
  import opened Exposure

  /** The cameras `calibrate` looks for, in the order it handles them. */
  const Cameras: seq<string> := ["CIN", "CIE", "CIS", "CIW", "CIC"]

  /** Calibration coefficients: camera -> coefficient name -> value. */
  type Coefficients = map<string, map<string, real>>

  /** How `calibrate` fails. */
  datatype CalibError =
    | MissingCoefficient(camera: string, key: string)   // a coefficient lookup raises KeyError
    | MissingTemperature(camera: string)                 // no usable CCDTEMP and no default
    | ZeroTemperature(camera: string)                    // `-T0 / T` divides by zero
    | MissingExposureTime(camera: string)
    | NonPositiveExposureTime(camera: string, texp: real)
    | NoCameras                                          // `label` is never assigned

  /** The result: HDU 1's header, one image per camera present, and the label (`caption`) and units of the stage. */
  datatype Calibrated = Calibrated(hdr: Header, frames: map<string, Grid<real>>, caption: string, units: string)

  /** The label and units of the last stage applied. */
  function StageLabel(steps: int): (r: (string, string))
    ensures r.1 == "elec/s" <==> steps >= 3
    ensures r.1 == "ADU" <==> steps < 3
    ensures r.0 == "Raw Data" <==> steps <= 0
    ensures r.0 == "Bias Subtracted" <==> steps == 1
    ensures r.0 == "Dark Subtracted" <==> steps == 2
  {
    if steps <= 0 then ("Raw Data", "ADU")
    else if steps == 1 then ("Bias Subtracted", "ADU")
    else if steps == 2 then ("Dark Subtracted", "ADU")
    else ("Gain Corrected", "elec/s")
  }

  /** The calibration in force (CI/data.py:89): a missing or empty one falls back to the default. */
  function Resolve(calib: Option<Coefficients>, default: Coefficients): (r: Coefficients)
    ensures calib.Some? && calib.value != map[] ==> r == calib.value
    ensures calib.None? || calib.value == map[] ==> r == default
  {
    if calib.Some? && calib.value != map[] then calib.value else default
  }

  /** Coefficient `key` of `camera`, or None where the lookup raises KeyError (CI/data.py:99, 109, 119). */
  function Coef(calib: Coefficients, camera: string, key: string): Option<real>
  {
    if camera in calib && key in calib[camera] then Some(calib[camera][key]) else None
  }

  /** The CCD temperature (CI/data.py:106): a missing or zero CCDTEMP gives way to the default. */
  function Temperature(hdr: Header, tdefault: Option<real>): (r: Option<real>)
    ensures r.Some? && r.value != 0.0 ==> r == hdr.ccdtemp || r == tdefault
    ensures hdr.ccdtemp.Some? && hdr.ccdtemp.value != 0.0 ==> r == hdr.ccdtemp
    ensures r.None? ==> tdefault.None?
    ensures hdr.ccdtemp.None? || hdr.ccdtemp.value == 0.0 ==> r == tdefault
  {
    if hdr.ccdtemp.Some? && hdr.ccdtemp.value != 0.0 then hdr.ccdtemp else tdefault
  }

  /** The dark level: D0 times the exponential of -T0 / T (CI/data.py:109). */
  function Dark(d0: real, t0: real, t: real, exp: real -> real): real
    requires t != 0.0
  {
    d0 * exp(-t0 / t)
  }

  /** The dark level can be computed: a usable nonzero temperature and both dark coefficients. */
  predicate DarkKnown(hdr: Header, calib: Coefficients, camera: string, tdefault: Option<real>)
  {
    && Temperature(hdr, tdefault).Some? && Temperature(hdr, tdefault).value != 0.0
    && Coef(calib, camera, "D0").Some? && Coef(calib, camera, "T0").Some?
  }

  /** The dark level of `camera` for the temperature its header (or the default) gives. */
  function DarkLevel(hdr: Header, calib: Coefficients, camera: string, tdefault: Option<real>, exp: real -> real): real
    requires DarkKnown(hdr, calib, camera, tdefault)
  {
    Dark(Coef(calib, camera, "D0").value, Coef(calib, camera, "T0").value, Temperature(hdr, tdefault).value, exp)
  }

  /**
   * One camera's image after `steps` stages: the branch of the loop body in
   * `calibrate` for a camera that is present, `hdu` being its extension.
   * Errors are raised in the order the source evaluates the lookups.
   */
  function CalibrateCamera(hdu: Hdu, calib: Coefficients, camera: string, steps: int,
                           tdefault: Option<real>, exp: real -> real): (r: Result<Grid<real>, CalibError>)
    // no stage: the raw image
    ensures steps <= 0 ==> r == Success(hdu.data)
    // stage 1: bias
    ensures steps >= 1 && Coef(calib, camera, "bias").None? ==> r == Failure(MissingCoefficient(camera, "bias"))
    ensures steps == 1 && Coef(calib, camera, "bias").Some? ==>
      r.Success? && IsPointwise(r.value, hdu.data, x => x - Coef(calib, camera, "bias").value)
    // stage 2: temperature and dark level
    ensures steps >= 2 && Coef(calib, camera, "bias").Some? && Temperature(hdu.header, tdefault).None? ==>
      r == Failure(MissingTemperature(camera))
    ensures steps >= 2 && Coef(calib, camera, "bias").Some? && Temperature(hdu.header, tdefault) == Some(0.0)
            && Coef(calib, camera, "D0").Some? && Coef(calib, camera, "T0").Some? ==>
      r == Failure(ZeroTemperature(camera))
    ensures steps >= 2 && Coef(calib, camera, "bias").Some? && Temperature(hdu.header, tdefault).Some? ==>
      && (Coef(calib, camera, "D0").None? ==> r == Failure(MissingCoefficient(camera, "D0")))
      && (Coef(calib, camera, "D0").Some? && Coef(calib, camera, "T0").None? ==> r == Failure(MissingCoefficient(camera, "T0")))
    ensures steps >= 2 && r.Success? ==> DarkKnown(hdu.header, calib, camera, tdefault)
    ensures steps == 2 && Coef(calib, camera, "bias").Some? && DarkKnown(hdu.header, calib, camera, tdefault) ==>
      r.Success? && IsPointwise(r.value, hdu.data,
        x => x - Coef(calib, camera, "bias").value - DarkLevel(hdu.header, calib, camera, tdefault, exp))
    // stage 3: exposure time and gain
    ensures steps >= 3 && r.Success? ==> hdu.header.exptime.Some? && hdu.header.exptime.value > 0.0
    ensures steps >= 3 && Coef(calib, camera, "bias").Some? && DarkKnown(hdu.header, calib, camera, tdefault) ==>
      && (hdu.header.exptime.None? ==> r == Failure(MissingExposureTime(camera)))
      && (hdu.header.exptime.Some? && hdu.header.exptime.value <= 0.0 ==>
            r == Failure(NonPositiveExposureTime(camera, hdu.header.exptime.value)))
    ensures steps >= 3 && Coef(calib, camera, "bias").Some? && DarkKnown(hdu.header, calib, camera, tdefault)
            && hdu.header.exptime.Some? && hdu.header.exptime.value > 0.0 ==>
      (r.Success? <==> Coef(calib, camera, "gain").Some?)
    ensures steps >= 3 && Coef(calib, camera, "bias").Some? && DarkKnown(hdu.header, calib, camera, tdefault)
            && hdu.header.exptime.Some? && hdu.header.exptime.value > 0.0 && Coef(calib, camera, "gain").None? ==>
      r == Failure(MissingCoefficient(camera, "gain"))
    ensures r.Failure? ==> r.error != NoCameras
    ensures steps >= 3 && r.Success? ==> Coef(calib, camera, "gain").Some? && IsPointwise(r.value, hdu.data,
        x => (x - Coef(calib, camera, "bias").value - DarkLevel(hdu.header, calib, camera, tdefault, exp))
             * (Coef(calib, camera, "gain").value / hdu.header.exptime.value))
  {
    var raw := hdu.data;
    if steps <= 0 then Success(raw)
    else if Coef(calib, camera, "bias").None? then Failure(MissingCoefficient(camera, "bias"))
    else
      var bias := Coef(calib, camera, "bias").value;
      var debiased := Pointwise(raw, x => x - bias);
      if steps == 1 then Success(debiased)
      else
        var t := Temperature(hdu.header, tdefault);
        if t.None? then Failure(MissingTemperature(camera))
        else if Coef(calib, camera, "D0").None? then Failure(MissingCoefficient(camera, "D0"))
        else if Coef(calib, camera, "T0").None? then Failure(MissingCoefficient(camera, "T0"))
        else if t.value == 0.0 then Failure(ZeroTemperature(camera))
        else
          var dark := Dark(Coef(calib, camera, "D0").value, Coef(calib, camera, "T0").value, t.value, exp);
          var dedarked := Pointwise(debiased, x => x - dark);
          if steps == 2 then Success(dedarked)
          else
            var texp := hdu.header.exptime;
            if texp.None? then Failure(MissingExposureTime(camera))
            else if texp.value <= 0.0 then Failure(NonPositiveExposureTime(camera, texp.value))
            else if Coef(calib, camera, "gain").None? then Failure(MissingCoefficient(camera, "gain"))
            else
              var scale := Coef(calib, camera, "gain").value / texp.value;
              Success(Pointwise(dedarked, x => x * scale))
  }

  /**
   * The stages compose: each stage is the previous stage's image with one
   * more pointwise correction, and stages beyond the third change nothing.
   */
  lemma CameraStagesCompose(hdu: Hdu, calib: Coefficients, camera: string, steps: int,
                            tdefault: Option<real>, exp: real -> real)
    ensures var s1 := CalibrateCamera(hdu, calib, camera, 1, tdefault, exp);
      s1.Success? ==> IsPointwise(s1.value, CalibrateCamera(hdu, calib, camera, 0, tdefault, exp).value,
                                  x => x - Coef(calib, camera, "bias").value)
    ensures var s2 := CalibrateCamera(hdu, calib, camera, 2, tdefault, exp);
      s2.Success? ==> && CalibrateCamera(hdu, calib, camera, 1, tdefault, exp).Success?
                      && DarkKnown(hdu.header, calib, camera, tdefault)
                      && IsPointwise(s2.value, CalibrateCamera(hdu, calib, camera, 1, tdefault, exp).value,
                                     x => x - DarkLevel(hdu.header, calib, camera, tdefault, exp))
    ensures var s3 := CalibrateCamera(hdu, calib, camera, 3, tdefault, exp);
      s3.Success? ==> && CalibrateCamera(hdu, calib, camera, 2, tdefault, exp).Success?
                      && Coef(calib, camera, "gain").Some? && hdu.header.exptime.Some? && hdu.header.exptime.value > 0.0
                      && IsPointwise(s3.value, CalibrateCamera(hdu, calib, camera, 2, tdefault, exp).value,
                                     x => x * (Coef(calib, camera, "gain").value / hdu.header.exptime.value))
    ensures steps >= 3 ==> CalibrateCamera(hdu, calib, camera, steps, tdefault, exp) == CalibrateCamera(hdu, calib, camera, 3, tdefault, exp)
  {
  }

  /** The image `calibrate` makes of a camera that `c` holds. */
  function CameraResult(c: Container, calib: Coefficients, camera: string, steps: int,
                        tdefault: Option<real>, exp: real -> real): Result<Grid<real>, CalibError>
    requires Has(c, camera)
  {
    CalibrateCamera(c.hdus[Lower(camera)], calib, camera, steps, tdefault, exp)
  }

  /**
   * The loop over `cams`: every camera present is calibrated in turn and the
   * first failure escapes; absent cameras are passed over.
   */
  function CalibrateAll(c: Container, calib: Coefficients, cams: seq<string>, steps: int,
                        tdefault: Option<real>, exp: real -> real): (r: Result<map<string, Grid<real>>, CalibError>)
    ensures r.Success? ==> forall cam :: cam in r.value <==> cam in cams && Has(c, cam)
    ensures r.Success? ==> forall cam :: cam in r.value ==>
      Has(c, cam) && CameraResult(c, calib, cam, steps, tdefault, exp) == Success(r.value[cam])
    ensures r.Success? <==> forall i :: 0 <= i < |cams| && Has(c, cams[i]) ==>
      CameraResult(c, calib, cams[i], steps, tdefault, exp).Success?
    ensures r.Failure? ==> exists i :: 0 <= i < |cams| && FirstFailure(c, calib, cams, i, steps, tdefault, exp, r.error)
    decreases |cams|
  {
    if cams == [] then Success(map[])
    else
      var rest := CalibrateAll(c, calib, cams[1..], steps, tdefault, exp);
      if !Has(c, cams[0]) then
        FirstFailureShift(c, calib, cams, rest, steps, tdefault, exp);
        rest
      else
        var g := CameraResult(c, calib, cams[0], steps, tdefault, exp);
        if g.Failure? then
          assert FirstFailure(c, calib, cams, 0, steps, tdefault, exp, g.error);
          Failure(g.error)
        else
          FirstFailureShift(c, calib, cams, rest, steps, tdefault, exp);
          if rest.Failure? then rest
          else Success(rest.value[cams[0] := g.value])
  }

  /** `cams[i]` is the first camera present whose calibration fails, and it fails with `e`. */
  predicate FirstFailure(c: Container, calib: Coefficients, cams: seq<string>, i: int, steps: int,
                         tdefault: Option<real>, exp: real -> real, e: CalibError)
  {
    && 0 <= i < |cams|
    && Has(c, cams[i])
    && CameraResult(c, calib, cams[i], steps, tdefault, exp) == Failure(e)
    && forall j :: 0 <= j < i && Has(c, cams[j]) ==> CameraResult(c, calib, cams[j], steps, tdefault, exp).Success?
  }

  /** A first failure in the tail is a first failure of the whole list once its head is known to pass. */
  lemma FirstFailureShift(c: Container, calib: Coefficients, cams: seq<string>,
                          rest: Result<map<string, Grid<real>>, CalibError>, steps: int,
                          tdefault: Option<real>, exp: real -> real)
    requires cams != []
    requires !Has(c, cams[0]) || CameraResult(c, calib, cams[0], steps, tdefault, exp).Success?
    requires rest.Failure? ==> exists i :: 0 <= i < |cams[1..]| && FirstFailure(c, calib, cams[1..], i, steps, tdefault, exp, rest.error)
    ensures rest.Failure? ==> exists i :: 0 <= i < |cams| && FirstFailure(c, calib, cams, i, steps, tdefault, exp, rest.error)
  {
    if rest.Failure? {
      var i :| 0 <= i < |cams[1..]| && FirstFailure(c, calib, cams[1..], i, steps, tdefault, exp, rest.error);
      forall j | 0 < j <= i
        ensures cams[j] == cams[1..][j - 1]
      {
      }
      assert FirstFailure(c, calib, cams, i + 1, steps, tdefault, exp, rest.error);
    }
  }

  /**
   * `calibrate(hdus, calib, steps, Tdefault)`, with the default calibration
   * and the exponential as parameters.
   */
  function Calibrate(c: Container, calib: Option<Coefficients>, default: Coefficients, steps: int,
                     tdefault: Option<real>, exp: real -> real): (r: Result<Calibrated, CalibError>)
    ensures r.Success? ==> r.value.hdr == c.primary
    ensures r.Success? ==> (r.value.caption, r.value.units) == StageLabel(steps)
    ensures r.Success? ==> forall cam :: cam in r.value.frames <==> cam in Cameras && Has(c, cam)
    ensures r.Success? ==> forall cam :: cam in r.value.frames ==>
      Has(c, cam) && CameraResult(c, Resolve(calib, default), cam, steps, tdefault, exp) == Success(r.value.frames[cam])
    ensures (forall cam :: cam in Cameras ==> !Has(c, cam)) ==> r == Failure(NoCameras)
    ensures r.Failure? && r.error != NoCameras ==>
      exists i :: 0 <= i < |Cameras| && FirstFailure(c, Resolve(calib, default), Cameras, i, steps, tdefault, exp, r.error)
    ensures steps <= 0 && (exists cam :: cam in Cameras && Has(c, cam)) ==> r.Success?
    ensures r == Failure(NoCameras) <==> forall cam :: cam in Cameras ==> !Has(c, cam)
  {
    var coeffs := Resolve(calib, default);
    var frames := CalibrateAll(c, coeffs, Cameras, steps, tdefault, exp);
    if frames.Failure? then Failure(frames.error)
    else if frames.value == map[] then
      assert forall cam :: cam in Cameras ==> !Has(c, cam);
      Failure(NoCameras)
    else
      var (caption, units) := StageLabel(steps);
      Success(Calibrated(c.primary, frames.value, caption, units))
  }
}
