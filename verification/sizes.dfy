/**
 * The width allow-list of src/handler.js (`IMAGE_SIZES`) and its membership
 * test. The list mixes twelve pixel widths with the string 'AUTO'; a parsed
 * width is always a number, so the string entry can never match it.
 */
module Sizes {

  datatype SizeEntry = Px(pixels: int) | Auto

  const ImageSizes: seq<SizeEntry> :=
    [Px(320), Px(640), Px(800), Px(1024), Px(1280), Px(1360), Px(1920),
     Px(2048), Px(2056), Px(2560), Px(3440), Px(3840), Auto]

  /** The pixel widths a resize request may ask for. */
  const AcceptedWidths: set<int> :=
    {320, 640, 800, 1024, 1280, 1360, 1920, 2048, 2056, 2560, 3440, 3840}

  /** `list.includes(width)` for a numeric width: a front-to-back scan for an equal number. */
  function Includes(list: seq<SizeEntry>, width: int): (found: bool)
    ensures found <==> exists i :: 0 <= i < |list| && list[i] == Px(width)
    decreases |list|
  {
    if |list| == 0 then false
    else if list[0] == Px(width) then true
    else
      var found := Includes(list[1..], width);
      assert forall i :: 1 <= i < |list| ==> list[i] == list[1..][i - 1];
      found
  }

  /** `IMAGE_SIZES.includes(width)`. */
  predicate Allowed(width: int) {
    Includes(ImageSizes, width)
  }

  /** Every width the list accepts is one of the twelve pixel widths. */
  lemma AllowedOnlyAccepted(width: int)
    requires Allowed(width)
    ensures width in AcceptedWidths
  {
    // Splitting the index range into quarters keeps each case small for the solver; with an
    // empty body this lemma exceeds the resource limit.
    var i :| 0 <= i < |ImageSizes| && ImageSizes[i] == Px(width);
    if i < 3 {
      assert i in {0, 1, 2};
    } else if i < 6 {
      assert i in {3, 4, 5};
    } else if i < 9 {
      assert i in {6, 7, 8};
    } else {
      assert i in {9, 10, 11, 12};
    }
  }

  /** Every one of the twelve pixel widths is accepted. */
  lemma AcceptedAllowed(width: int)
    requires width in AcceptedWidths
    ensures Allowed(width)
  {
    assert Px(width) in ImageSizes;
  }

  /** The accepted widths are exactly the twelve numeric entries; the 'AUTO' entry matches no number. */
  lemma AllowedExactly(width: int)
    ensures Allowed(width) <==> width in AcceptedWidths
  {
    if Allowed(width) {
      AllowedOnlyAccepted(width);
    }
    if width in AcceptedWidths {
      AcceptedAllowed(width);
    }
  }
}
