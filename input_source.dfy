/**
 * Classification of the `--input` argument (main.py:126-136): the literal
 * "CAM" selects the webcam (device -1), a name ending in ".jpg" or ".png"
 * selects single-image mode, and anything else is opened as a video file.
 */
module InputSource {

  datatype InputKind = Camera | SingleImage(path: string) | Video(path: string)

  /** Python's str.endswith. */
  predicate EndsWith(s: string, suffix: string)
  {
    |suffix| <= |s| && s[|s| - |suffix|..] == suffix
  }

  function Classify(input: string): (k: InputKind)
    ensures k.Camera? <==> input == "CAM"
    ensures k.SingleImage? <==> input != "CAM" && (EndsWith(input, ".jpg") || EndsWith(input, ".png"))
    ensures !k.Camera? ==> k.path == input
  {
    if input == "CAM" then Camera
    else if EndsWith(input, ".jpg") || EndsWith(input, ".png") then SingleImage(input)
    else Video(input)
  }

  /** Every name with an image extension is read as a single image (the
      camera sentinel has no extension), and the comparison is case-sensitive. */
  lemma ImageNames(name: string)
    ensures Classify(name + ".jpg") == SingleImage(name + ".jpg")
    ensures Classify(name + ".png") == SingleImage(name + ".png")
    ensures Classify(name + ".JPG") == Video(name + ".JPG")
  {
    var j, p, u := name + ".jpg", name + ".png", name + ".JPG";
    assert j[|j| - 4..] == ".jpg";
    assert p[|p| - 4..] == ".png";
    assert u[|u| - 4..] == ".JPG";
    assert j != "CAM" by { assert j[|j| - 1] == 'g'; }
    assert p != "CAM" by { assert p[|p| - 1] == 'g'; }
    assert u != "CAM" by { assert u[|u| - 1] == 'G'; }
  }

  /** Conversely, an input read as a single image is a name followed by one of the two extensions. */
  lemma SingleImageHasExtension(s: string)
    ensures Classify(s).SingleImage? ==> exists n :: s == n + ".jpg" || s == n + ".png"
  {
    if Classify(s).SingleImage? {
      var n := s[..|s| - 4];
      assert s == n + s[|s| - 4..];
    }
  }
}
