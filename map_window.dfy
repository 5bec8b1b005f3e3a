/**
 * The byte and selection logic of the map window (src/map_window.rs):
 * tagging archive entries the blacklist recognises, picking the ".vtf"
 * entries as textures, the problem a texture reports, the in-place byte
 * swap that turns ABGR8888 pixels into RGBA8888, and the predicates that
 * decide which textures and entries the lists show.
 */
module MapWindow {
  import opened Wrappers
  import opened Bytes
  import opened Blacklist
  import opened Bsp

  /** ".vtf". */
  const VTF_EXTENSION: seq<byte> := [0x2E, 0x76, 0x74, 0x66]

  /** The image formats the window treats apart; every other one is kept by its code. */
  datatype ImageFormat = Rgba16161616f | Abgr8888 | OtherFormat(code: int)

  /**
   * What the external texture library makes of an entry's bytes: whether
   * the first mip level decodes, and the image's format.
   */
  datatype ImageInfo = ImageInfo(decodes: bool, format: ImageFormat)
  type Inspect = seq<byte> -> ImageInfo

  datatype TextureProblem = Blacklisted(reason: BlacklistReason) | UnsupportedImageFormat(format: ImageFormat)

  datatype Texture = Texture(name: seq<byte>, toRemove: bool, problem: Option<TextureProblem>)

  // ---------------------------------------------------------------------
  // Blacklist tagging
  // ---------------------------------------------------------------------

  /**
   * Tags every entry whose bytes the check recognises with the reason it
   * gives; entries it does not recognise keep the tag they had.
   */
  method TagBlacklisted(files: array<PakFile>, window: seq<byte>, check: Check)
    requires forall k :: 0 <= k < files.Length ==> DataInBounds(files[k], window)
    modifies files
    ensures forall k :: 0 <= k < files.Length ==>
              match check(EntryData(old(files[k]), window))
              case Some(reason) => files[k] == old(files[k]).(blacklisted := Some(reason))
              case None => files[k] == old(files[k])
  {
    for k := 0 to files.Length
      invariant forall j :: k <= j < files.Length ==> files[j] == old(files[j])
      invariant forall j :: 0 <= j < k ==>
                  match check(EntryData(old(files[j]), window))
                  case Some(reason) => files[j] == old(files[j]).(blacklisted := Some(reason))
                  case None => files[j] == old(files[j])
    {
      var reason := check(EntryData(files[k], window));
      if reason.Some? {
        files[k] := files[k].(blacklisted := reason);
      }
    }
  }

  // ---------------------------------------------------------------------
  // Textures
  // ---------------------------------------------------------------------

  /**
   * The problem a texture reports: the entry's blacklist reason when it has
   * one; otherwise an unsupported format when the image neither decodes nor
   * has one of the two formats converted by hand; otherwise none.
   */
  function Problem(blacklisted: Option<BlacklistReason>, info: ImageInfo): (r: Option<TextureProblem>)
    ensures blacklisted.Some? ==> r == Some(Blacklisted(blacklisted.value))
    ensures r.None? <==> blacklisted.None? && (info.decodes || !info.format.OtherFormat?)
    ensures r.Some? && r.value.UnsupportedImageFormat? <==>
              blacklisted.None? && !info.decodes && info.format.OtherFormat?
    ensures r.Some? && r.value.UnsupportedImageFormat? ==> r.value.format == info.format
  {
    if blacklisted.Some? then Some(Blacklisted(blacklisted.value))
    else if info.decodes then None
    else
      match info.format
      case Rgba16161616f => None
      case Abgr8888 => None
      case OtherFormat(_) => Some(UnsupportedImageFormat(info.format))
  }

  predicate IsVtf(f: PakFile, window: seq<byte>)
    requires NameInBounds(f, window)
  {
    EndsWith(EntryName(f, window), VTF_EXTENSION)
  }

  /** The texture made from a ".vtf" entry: its name, not marked for removal, and its problem. */
  function TextureOf(f: PakFile, window: seq<byte>, inspect: Inspect): Texture
    requires NameInBounds(f, window) && DataInBounds(f, window)
  {
    Texture(EntryName(f, window), false, Problem(f.blacklisted, inspect(EntryData(f, window))))
  }

  /**
   * What listing the textures reads: every entry's name, and the data of the
   * ".vtf" entries only.
   */
  predicate TexturesInBounds(files: seq<PakFile>, window: seq<byte>) {
    forall f :: f in files ==> NameInBounds(f, window) && (IsVtf(f, window) ==> DataInBounds(f, window))
  }

  /**
   * The textures of the archive: one per ".vtf" entry, in entry order. Every
   * texture is the texture of some ".vtf" entry, so it has a ".vtf" name and
   * is not marked for removal, and every ".vtf" entry has its texture.
   */
  function Textures(files: seq<PakFile>, window: seq<byte>, inspect: Inspect): (r: seq<Texture>)
    requires TexturesInBounds(files, window)
    ensures |r| <= |files|
    ensures forall t :: t in r ==> exists f :: f in files && IsVtf(f, window) && t == TextureOf(f, window, inspect)
    ensures forall t :: t in r ==> EndsWith(t.name, VTF_EXTENSION) && !t.toRemove
    ensures forall f :: f in files && IsVtf(f, window) ==> TextureOf(f, window, inspect) in r
    decreases files
  {
    if files == [] then []
    else
      var rest := Textures(files[1..], window, inspect);
      assert forall f :: f in files[1..] ==> f in files;
      if IsVtf(files[0], window) then [TextureOf(files[0], window, inspect)] + rest else rest
  }

  /** The textures of two runs of entries are the textures of each, in order. */
  lemma {:induction false} TexturesConcat(a: seq<PakFile>, b: seq<PakFile>, window: seq<byte>, inspect: Inspect)
    requires TexturesInBounds(a, window) && TexturesInBounds(b, window)
    ensures TexturesInBounds(a + b, window)
    ensures Textures(a + b, window, inspect) == Textures(a, window, inspect) + Textures(b, window, inspect)
  {
    if a != [] {
      assert (a + b)[1..] == a[1..] + b;
      assert forall f :: f in a[1..] ==> f in a;
      TexturesConcat(a[1..], b, window, inspect);
    } else {
      assert a + b == b;
    }
  }

  /**
   * A texture made from a tagged entry reports the blacklist reason exactly
   * when the check recognised the entry's bytes (or the entry was tagged
   * already).
   */
  lemma TaggedTextureProblem(f: PakFile, window: seq<byte>, check: Check, inspect: Inspect)
    requires NameInBounds(f, window) && DataInBounds(f, window)
    ensures var tagged := match check(EntryData(f, window)) case Some(reason) => f.(blacklisted := Some(reason)) case None => f;
      var t := TextureOf(tagged, window, inspect);
      && t.name == EntryName(f, window)
      && (check(EntryData(f, window)).Some? ==> t.problem == Some(Blacklisted(check(EntryData(f, window)).value)))
      && (t.problem.Some? && t.problem.value.Blacklisted? <==> check(EntryData(f, window)).Some? || f.blacklisted.Some?)
  {
  }

  // ---------------------------------------------------------------------
  // ABGR8888 to RGBA8888
  // ---------------------------------------------------------------------

  /**
   * Where byte `i` of an image of `n` bytes comes from after the swap: the
   * mirror position inside its group of four, or itself in the trailing
   * `n % 4` bytes.
   */
  function SwapIndex(n: nat, i: nat): nat {
    if i < n - n % 4 then i - i % 4 + 3 - i % 4 else i
  }

  /** Every whole group of four bytes reversed; the last `|s| % 4` bytes as they were. */
  function SwapGroups(s: seq<byte>): (r: seq<byte>)
    ensures |r| == |s|
    decreases |s|
  {
    if |s| < 4 then s
    else [s[3], s[2], s[1], s[0]] + SwapGroups(s[4..])
  }

  lemma SwapIndexShift(n: nat, i: nat)
    requires 4 <= i < n
    ensures SwapIndex(n, i) == 4 + SwapIndex(n - 4, i - 4)
  {
    assert (i - 4) % 4 == i % 4;
    assert (n - 4) % 4 == n % 4;
  }

  /** Byte `i` of the swapped image is byte `SwapIndex(|s|, i)` of the original. */
  lemma {:induction false} SwapGroupsAt(s: seq<byte>, i: nat)
    requires i < |s|
    ensures SwapIndex(|s|, i) < |s|
    ensures SwapGroups(s)[i] == s[SwapIndex(|s|, i)]
    decreases |s|
  {
    if |s| < 4 {
      assert |s| - |s| % 4 == 0;
    } else if i < 4 {
      assert i % 4 == i;
    } else {
      SwapIndexShift(|s|, i);
      SwapGroupsAt(s[4..], i - 4);
    }
  }

  lemma SwapIndexTwice(n: nat, i: nat)
    requires i < n
    ensures SwapIndex(n, i) < n && SwapIndex(n, SwapIndex(n, i)) == i
  {
    if i < n - n % 4 {
      var j := i - i % 4 + 3 - i % 4;
      assert j % 4 == 3 - i % 4 && j - j % 4 == i - i % 4;
    }
  }

  /** Swapping twice gives the pixels back. */
  lemma SwapGroupsTwice(s: seq<byte>)
    ensures SwapGroups(SwapGroups(s)) == s
  {
    var r := SwapGroups(s);
    var rr := SwapGroups(r);
    forall i | 0 <= i < |s| ensures rr[i] == s[i] {
      SwapGroupsAt(r, i);
      SwapIndexTwice(|s|, i);
      SwapGroupsAt(s, SwapIndex(|s|, i));
    }
  }

  /** Whole pixels in front are swapped on their own. */
  lemma {:induction false} SwapGroupsConcat(a: seq<byte>, b: seq<byte>, g: nat)
    requires |a| == 4 * g
    ensures SwapGroups(a + b) == SwapGroups(a) + SwapGroups(b)
  {
    if g == 0 {
      assert a + b == b;
    } else {
      assert (a + b)[4..] == a[4..] + b;
      SwapGroupsConcat(a[4..], b, g - 1);
    }
  }

  /** One more pixel of the image swapped. */
  lemma SwapGroupsStep(s: seq<byte>, g: nat)
    requires 4 * g + 4 <= |s|
    ensures SwapGroups(s[..4 * g + 4]) == SwapGroups(s[..4 * g]) + [s[4 * g + 3], s[4 * g + 2], s[4 * g + 1], s[4 * g]]
  {
    var i := 4 * g;
    assert s[..i + 4] == s[..i] + s[i..i + 4];
    SwapGroupsConcat(s[..i], s[i..i + 4], g);
  }

  /** An image is its whole pixels, swapped, followed by the bytes that make no pixel. */
  lemma SwapGroupsWholePrefix(s: seq<byte>, g: nat)
    requires 4 * g <= |s| < 4 * g + 4
    ensures SwapGroups(s) == SwapGroups(s[..4 * g]) + s[4 * g..]
  {
    var tail := s[4 * g..];
    assert s == s[..4 * g] + tail;
    SwapGroupsConcat(s[..4 * g], tail, g);
    assert SwapGroups(tail) == tail by {
      assert |tail| < 4;
    }
  }

  /** The trailing `|s| % 4` bytes, which form no whole pixel, are left as they were. */
  lemma SwapGroupsKeepsTail(s: seq<byte>)
    ensures SwapGroups(s)[|s| - |s| % 4..] == s[|s| - |s| % 4..]
  {
    var g := |s| / 4;
    assert 4 * g == |s| - |s| % 4;
    SwapGroupsWholePrefix(s, g);
  }

  /** Reversing the next four bytes of a half-swapped image swaps one more pixel. */
  lemma SwapPixel(before: seq<byte>, s: seq<byte>, g: nat)
    requires |before| == |s| && 4 * g + 4 <= |s|
    requires before[..4 * g] == SwapGroups(s[..4 * g]) && before[4 * g..] == s[4 * g..]
    ensures var i := 4 * g;
      var after := before[i := s[i + 3]][i + 1 := s[i + 2]][i + 2 := s[i + 1]][i + 3 := s[i]];
      after[..i + 4] == SwapGroups(s[..i + 4]) && after[i + 4..] == s[i + 4..]
  {
    var i := 4 * g;
    var after := before[i := s[i + 3]][i + 1 := s[i + 2]][i + 2 := s[i + 1]][i + 3 := s[i]];
    SwapGroupsStep(s, g);
    assert after[..i] == before[..i];
    assert after[..i + 4] == after[..i] + [s[i + 3], s[i + 2], s[i + 1], s[i]];
    assert after[i + 4..] == before[i + 4..] by {
      assert before[i + 4..] == before[i..][4..];
    }
    assert before[i + 4..] == s[i + 4..] by {
      assert s[i + 4..] == s[i..][4..];
    }
  }

  /** The byte-swap loop of the ABGR8888 branch, on the frame's bytes in place. */
  method SwapAbgr(image: array<byte>)
    modifies image
    ensures image[..] == SwapGroups(old(image[..]))
  {
    ghost var s := image[..];
    for idx := 0 to image.Length / 4
      invariant 4 * idx <= image.Length
      invariant image[..4 * idx] == SwapGroups(s[..4 * idx])
      invariant image[4 * idx..] == s[4 * idx..]
    {
      var i := idx * 4;
      ghost var before := image[..];
      var a, b, c, d := image[i], image[i + 1], image[i + 2], image[i + 3];
      assert a == s[i] && b == s[i + 1] && c == s[i + 2] && d == s[i + 3] by {
        assert forall k :: i <= k < image.Length ==> image[k] == image[i..][k - i];
      }
      image[i], image[i + 1], image[i + 2], image[i + 3] := d, c, b, a;
      assert image[..] == before[i := d][i + 1 := c][i + 2 := b][i + 3 := a];
      SwapPixel(before, s, idx);
    }
    var m := 4 * (image.Length / 4);
    SwapGroupsWholePrefix(s, image.Length / 4);
    assert image[..] == image[..m] + image[m..];
  }

  // ---------------------------------------------------------------------
  // List filters
  // ---------------------------------------------------------------------

  /**
   * Whether the texture list shows `t`: not when only problem textures are
   * wanted and it has none, nor when the search text is not part of its name.
   */
  function ShowTexture(onlyBlacklisted: bool, filter: seq<byte>, t: Texture): (r: bool)
    ensures r <==> (!onlyBlacklisted || t.problem.Some?) && (filter == [] || exists j: nat :: OccursAt(t.name, filter, j))
  {
    if onlyBlacklisted && t.problem.None? then false
    else if |filter| > 0 && Find(t.name, filter).None? then false
    else true
  }

  /** Whether the archive list shows entry `f` (named `name`): the same two tests on the entry's tag. */
  function ShowPakFile(onlyBlacklisted: bool, filter: seq<byte>, f: PakFile, name: seq<byte>): (r: bool)
    ensures r <==> (!onlyBlacklisted || f.blacklisted.Some?) && (filter == [] || exists j: nat :: OccursAt(name, filter, j))
  {
    if onlyBlacklisted && f.blacklisted.None? then false
    else if |filter| > 0 && Find(name, filter).None? then false
    else true
  }
}
