/**
 * Storage keys of resized variants (`generateS3Key` in src/lib/utils.js).
 *
 * A key is split at its LAST '/' (the greedy `(.*)/(.*)` pattern); a key
 * without '/' has no variant address and maps to itself. With a truthy
 * width the variant lives at `prefix/{width}x{height|AUTO}/filename`.
 */
module Keys {
  import opened Wrappers
  import Decimal

  /** A parsed query parameter: `None` stands for both null (absent) and NaN. */
  type Param = Option<int>

  datatype Size = Size(width: Param, height: Param)

  /** JavaScript truthiness of a parsed number: null, NaN and 0 are falsy. */
  predicate Truthy(p: Param) {
    p.Some? && p.value != 0
  }

  /** Index of the last '/' in `s`, if any: the scan the greedy first group performs. */
  function LastSlash(s: string): (r: Option<nat>)
    ensures r.Some? ==> r.value < |s|
    decreases |s|
  {
    if |s| == 0 then None
    else if s[|s| - 1] == '/' then Some(|s| - 1)
    else LastSlash(s[..|s| - 1])
  }

  /** `LastSlash` finds a '/' exactly when there is one, and no '/' follows the one it finds. */
  lemma {:induction false} LastSlashIsLast(s: string)
    ensures LastSlash(s).None? <==> '/' !in s
    ensures LastSlash(s).Some? ==> s[LastSlash(s).value] == '/' && '/' !in s[LastSlash(s).value + 1..]
    decreases |s|
  {
    if |s| > 0 && s[|s| - 1] != '/' {
      var init := s[..|s| - 1];
      LastSlashIsLast(init);
      assert s == init + [s[|s| - 1]];
      if LastSlash(init).Some? {
        var i := LastSlash(init).value;
        assert s[i + 1..] == init[i + 1..] + [s[|s| - 1]];
      }
    }
  }

  /** The two capture groups of the path pattern: everything before the last '/', and the rest;
      `None` when the pattern does not match. */
  function Split(key: string): Option<(string, string)> {
    match LastSlash(key)
    case None => None
    case Some(i) => Some((key[..i], key[i + 1..]))
  }

  /** The pattern matches exactly the keys that contain a '/', and its groups reassemble the key. */
  lemma SplitReassembles(key: string)
    ensures Split(key).None? <==> '/' !in key
    ensures Split(key).Some? ==>
      key == Split(key).value.0 + "/" + Split(key).value.1 && '/' !in Split(key).value.1
  {
    LastSlashIsLast(key);
    if LastSlash(key).Some? {
      var i := LastSlash(key).value;
      assert key == key[..i] + "/" + key[i + 1..];
    }
  }

  /** The split is at the last '/': it is the unique way to write the key as prefix + "/" + filename
      with no '/' in filename. */
  lemma SplitLastSlash(key: string, prefix: string, filename: string)
    ensures Split(key) == Some((prefix, filename)) <==> key == prefix + "/" + filename && '/' !in filename
  {
    SplitReassembles(key);
    if key == prefix + "/" + filename && '/' !in filename {
      assert key[|prefix|] == '/';
      var (p, f) := Split(key).value;
      SeparatorSplitUniqueRight(p, f, prefix, filename, '/');
    }
  }

  /** A separator that occurs in neither right part splits a concatenation uniquely. */
  lemma SeparatorSplitUniqueRight(a: string, x: string, b: string, y: string, c: char)
    requires c !in x && c !in y
    requires a + [c] + x == b + [c] + y
    ensures a == b && x == y
  {
    var s := a + [c] + x;
    assert forall k :: |a| < k < |s| ==> s[k] == x[k - |a| - 1] != c;
    assert forall k :: |b| < k < |s| ==> s[k] == y[k - |b| - 1] != c;
    assert s[|a|] == c && s[|b|] == c;
    assert |a| == |b|;
    assert a == s[..|a|] == b;
    assert x == s[|a| + 1..] == y;
  }

  /** The height part of the size segment: the number if truthy, else the literal AUTO. */
  function HeightSegment(height: Param): (s: string)
    ensures 'x' !in s && '/' !in s && |s| > 0
  {
    if Truthy(height) then Decimal.IntToString(height.value) else "AUTO"
  }

  /** The directory segment `{width}x{height|AUTO}` naming one variant. */
  function SizeSegment(width: int, height: Param): (s: string)
    ensures '/' !in s && |s| >= 3
  {
    Decimal.IntToString(width) + "x" + HeightSegment(height)
  }

  /** `generateS3Key(key, size)`. */
  function VariantKey(key: string, size: Size): string {
    match Split(key)
    case None => key
    case Some((prefix, filename)) =>
      if Truthy(size.width) then
        prefix + "/" + SizeSegment(size.width.value, size.height) + "/" + filename
      else
        prefix + "/" + filename
  }

  /** Without a '/' in the key, or without a truthy width, the key is returned unchanged: a height
      alone never changes it. */
  lemma VariantKeyUnchanged(key: string, size: Size)
    requires '/' !in key || !Truthy(size.width)
    ensures VariantKey(key, size) == key
  {
    SplitReassembles(key);
  }

  /** Layout of a variant: original prefix, the size segment, original filename. */
  lemma VariantLayout(key: string, prefix: string, filename: string, width: int, height: Param)
    requires key == prefix + "/" + filename && '/' !in filename && width != 0
    ensures VariantKey(key, Size(Some(width), height)) == prefix + "/" + SizeSegment(width, height) + "/" + filename
  {
    SplitLastSlash(key, prefix, filename);
  }

  /** A variant key begins with the original prefix and '/', and ends with '/' and the original filename. */
  lemma VariantKeepsPrefixAndFilename(key: string, prefix: string, filename: string, size: Size)
    requires key == prefix + "/" + filename && '/' !in filename
    ensures var r := VariantKey(key, size);
      |r| >= |prefix| + |filename| + 1
      && r[..|prefix| + 1] == prefix + "/"
      && r[|r| - |filename| - 1..] == "/" + filename
  {
    var r := VariantKey(key, size);
    if Truthy(size.width) {
      VariantLayout(key, prefix, filename, size.width.value, size.height);
      var seg := SizeSegment(size.width.value, size.height);
      Affixes4(prefix + "/", seg, "/", filename);
    } else {
      VariantKeyUnchanged(key, size);
      assert r == (prefix + "/") + [] + filename;
      Affixes(prefix + "/", [], filename);
      assert r == prefix + [] + ("/" + filename);
      Affixes(prefix, [], "/" + filename);
    }
  }

  lemma Affixes(a: string, b: string, c: string)
    ensures (a + b + c)[..|a|] == a && (a + b + c)[|a| + |b|..] == c
  {
  }

  /** The pieces of a four-part concatenation can be read back by position. */
  lemma Affixes4(a: string, m: string, sep: string, c: string)
    ensures var r := a + m + sep + c;
      r[..|a|] == a && r[|a|..|a| + |m|] == m && r[|a| + |m|..] == sep + c
  {
    var r := a + m + sep + c;
    assert r == a + (m + (sep + c));
  }

  /** Splitting a variant again recovers the original filename: the variant sits one directory below
      the original. */
  lemma VariantSplitsToFilename(key: string, prefix: string, filename: string, size: Size)
    requires key == prefix + "/" + filename && '/' !in filename && Truthy(size.width)
    ensures Split(VariantKey(key, size))
         == Some((prefix + "/" + SizeSegment(size.width.value, size.height), filename))
  {
    VariantLayout(key, prefix, filename, size.width.value, size.height);
    var dir := prefix + "/" + SizeSegment(size.width.value, size.height);
    SplitLastSlash(VariantKey(key, size), dir, filename);
  }

  /** With a truthy width and a '/' in the key, a variant key is strictly longer than its original:
      a derivative never overwrites its source. */
  lemma VariantNeverOriginal(key: string, size: Size)
    requires '/' in key && Truthy(size.width)
    ensures |VariantKey(key, size)| > |key|
    ensures VariantKey(key, size) != key
  {
    SplitReassembles(key);
    var (prefix, filename) := Split(key).value;
    VariantLayout(key, prefix, filename, size.width.value, size.height);
  }

  /** A separator that occurs in neither left part splits a concatenation uniquely. */
  lemma SeparatorSplitUnique(a: string, x: string, b: string, y: string, c: char)
    requires c !in a && c !in b
    requires a + [c] + x == b + [c] + y
    ensures a == b && x == y
  {
    var s := a + [c] + x;
    assert forall k :: 0 <= k < |a| ==> s[k] == a[k] != c;
    assert forall k :: 0 <= k < |b| ==> s[k] == b[k] != c;
    assert s[|a|] == c && s[|b|] == c;
    assert |a| == |b|;
    assert a == s[..|a|] == b;
    assert x == s[|a| + 1..] == y;
  }

  /** The size segment determines its width and its height part. */
  lemma SizeSegmentInjective(w1: int, h1: Param, w2: int, h2: Param)
    ensures SizeSegment(w1, h1) == SizeSegment(w2, h2)
        <==> w1 == w2 && HeightSegment(h1) == HeightSegment(h2)
  {
    var a, b := Decimal.IntToString(w1), Decimal.IntToString(w2);
    var x, y := HeightSegment(h1), HeightSegment(h2);
    if SizeSegment(w1, h1) == SizeSegment(w2, h2) {
      SeparatorSplitUnique(a, x, b, y, 'x');
      Decimal.IntToStringInjective(w1, w2);
    }
  }

  /** Two heights print alike exactly when both are falsy (AUTO) or both are the same truthy number. */
  lemma HeightSegmentInjective(h1: Param, h2: Param)
    ensures HeightSegment(h1) == HeightSegment(h2)
        <==> (Truthy(h1) <==> Truthy(h2)) && (Truthy(h1) ==> h1.value == h2.value)
  {
    if Truthy(h1) && Truthy(h2) {
      Decimal.IntToStringInjective(h1.value, h2.value);
    } else if Truthy(h1) {
      assert HeightSegment(h1)[0] != 'A';
    } else if Truthy(h2) {
      assert HeightSegment(h2)[0] != 'A';
    }
  }

  /** For one original key, two sizes with truthy widths share a variant key exactly when they have
      the same width and the same height segment: distinct widths or heights never collide. */
  lemma VariantInjective(key: string, s1: Size, s2: Size)
    requires '/' in key && Truthy(s1.width) && Truthy(s2.width)
    ensures VariantKey(key, s1) == VariantKey(key, s2)
        <==> s1.width == s2.width && HeightSegment(s1.height) == HeightSegment(s2.height)
  {
    SplitReassembles(key);
    var (prefix, filename) := Split(key).value;
    var g1 := SizeSegment(s1.width.value, s1.height);
    var g2 := SizeSegment(s2.width.value, s2.height);
    VariantLayout(key, prefix, filename, s1.width.value, s1.height);
    VariantLayout(key, prefix, filename, s2.width.value, s2.height);
    SizeSegmentInjective(s1.width.value, s1.height, s2.width.value, s2.height);
    if VariantKey(key, s1) == VariantKey(key, s2) {
      Affixes4(prefix + "/", g1, "/", filename);
      Affixes4(prefix + "/", g2, "/", filename);
    }
  }

  /** The split is at the last '/', so a nested key keeps all its directories in the prefix. */
  lemma SplitExamples()
    ensures Split("photos/beach.jpg") == Some(("photos", "beach.jpg"))
    ensures Split("a/b/c.jpg") == Some(("a/b", "c.jpg"))
  {
    assert "photos" + "/" + "beach.jpg" == "photos/beach.jpg" && '/' !in "beach.jpg";
    SplitLastSlash("photos/beach.jpg", "photos", "beach.jpg");
    assert "a/b" + "/" + "c.jpg" == "a/b/c.jpg" && '/' !in "c.jpg";
    SplitLastSlash("a/b/c.jpg", "a/b", "c.jpg");
  }

  /** A 640-pixel request for photos/beach.jpg is stored at photos/640xAUTO/beach.jpg. */
  lemma PhotosExample()
    ensures VariantKey("photos/beach.jpg", Size(Some(640), None)) == "photos/640xAUTO/beach.jpg"
    ensures VariantKey("photos/beach.jpg", Size(Some(640), Some(480))) == "photos/640x480/beach.jpg"
  {
    SplitExamples();
    PhotosVariants("photos/beach.jpg");
  }

  lemma PhotosVariants(key: string)
    requires Split(key) == Some(("photos", "beach.jpg"))
    ensures VariantKey(key, Size(Some(640), None)) == "photos/640xAUTO/beach.jpg"
    ensures VariantKey(key, Size(Some(640), Some(480))) == "photos/640x480/beach.jpg"
  {
    SegmentExamples();
    PhotosLiterals();
  }

  lemma SegmentExamples()
    ensures SizeSegment(640, None) == "640xAUTO" && SizeSegment(640, Some(480)) == "640x480"
  {
    RenderExamples();
  }

  lemma PhotosLiterals()
    ensures "photos" + "/" + "640xAUTO" + "/" + "beach.jpg" == "photos/640xAUTO/beach.jpg"
    ensures "photos" + "/" + "640x480" + "/" + "beach.jpg" == "photos/640x480/beach.jpg"
  {
  }

  lemma RenderExamples()
    ensures Decimal.IntToString(640) == "640" && Decimal.IntToString(480) == "480"
  {
    assert Decimal.NatDigits(6) == "6" && Decimal.NatDigits(4) == "4";
    assert Decimal.NatDigits(64) == "64" && Decimal.NatDigits(48) == "48";
  }
}
