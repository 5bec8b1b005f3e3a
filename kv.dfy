/**
 * The entity lump's text split into entities (src/kv.rs). The text is a
 * sequence of "{ ... }" blocks of `"key" "value"` lines; the splitter cuts
 * it after every "}\n" and the display name of an entity is its classname
 * followed by its origin in angle brackets.
 */
module Kv {
  import opened Wrappers
  import opened Bytes

  /** "}\n", the end of an entity block. */
  const ENTITY_END: seq<byte> := [0x7D, 0x0A]
  const NEWLINE: byte := 0x0A
  const CARRIAGE_RETURN: byte := 0x0D
  /** `"classname" "`. */
  const CLASSNAME_PREFIX: seq<byte> := [0x22, 0x63, 0x6C, 0x61, 0x73, 0x73, 0x6E, 0x61, 0x6D, 0x65, 0x22, 0x20, 0x22]
  /** `"origin" "`. */
  const ORIGIN_PREFIX: seq<byte> := [0x22, 0x6F, 0x72, 0x69, 0x67, 0x69, 0x6E, 0x22, 0x20, 0x22]
  const LESS_THAN: byte := 0x3C
  const GREATER_THAN: byte := 0x3E

  /** One entity's text and whether the editor changed it. */
  datatype Entity = Entity(text: seq<byte>, dirty: bool)

  function Concat(pieces: seq<seq<byte>>): seq<byte> {
    if pieces == [] then [] else pieces[0] + Concat(pieces[1..])
  }

  ghost predicate NoOccurrence(p: seq<byte>, sep: seq<byte>) {
    forall j: nat :: !OccursAt(p, sep, j)
  }

  /** `p` ends with `sep`, and that is the first place `sep` occurs in it. */
  ghost predicate EndsAtFirst(p: seq<byte>, sep: seq<byte>) {
    && |sep| <= |p|
    && OccursAt(p, sep, |p| - |sep|)
    && forall j: nat :: j < |p| - |sep| ==> !OccursAt(p, sep, j)
  }

  /** An occurrence inside a prefix is an occurrence in the whole. */
  lemma PrefixOccurrence(s: seq<byte>, n: nat, sep: seq<byte>, j: nat)
    requires n <= |s|
    ensures j + |sep| <= n ==> (OccursAt(s[..n], sep, j) <==> OccursAt(s, sep, j))
  {
    if j + |sep| <= n {
      assert s[..n][j..j + |sep|] == s[j..j + |sep|];
    }
  }

  /**
   * Rust's `str::split_inclusive` with a string pattern, on bytes: the input
   * cut after each leftmost occurrence of `sep`.
   */
  function SplitInclusive(s: seq<byte>, sep: seq<byte>): seq<seq<byte>>
    requires |sep| > 0
    decreases |s|
  {
    if s == [] then []
    else
      var n := CutEnd(s, sep);
      [s[..n]] + SplitInclusive(s[n..], sep)
  }

  /** Where the first piece of `s` ends: just after the first `sep`, or at the end when there is none. */
  function CutEnd(s: seq<byte>, sep: seq<byte>): (n: nat)
    requires s != [] && |sep| > 0
    ensures 0 < n <= |s|
  {
    match Find(s, sep)
    case None => |s|
    case Some(i) => i + |sep|
  }

  /**
   * Every piece is non-empty; every piece but the last ends at its first
   * occurrence of `sep`; the last one does too or has none.
   */
  ghost predicate CutAfterEach(r: seq<seq<byte>>, sep: seq<byte>) {
    && (forall k :: 0 <= k < |r| ==> r[k] != [])
    && (forall k :: 0 <= k < |r| - 1 ==> EndsAtFirst(r[k], sep))
    && (r != [] ==> EndsAtFirst(r[|r| - 1], sep) || NoOccurrence(r[|r| - 1], sep))
  }

  /** The pieces put back together give the input; "" has no pieces. */
  lemma {:induction false} SplitInclusiveConcat(s: seq<byte>, sep: seq<byte>)
    requires |sep| > 0
    ensures Concat(SplitInclusive(s, sep)) == s
    ensures SplitInclusive(s, sep) == [] <==> s == []
    decreases |s|
  {
    if s != [] {
      var n := CutEnd(s, sep);
      var rest := SplitInclusive(s[n..], sep);
      assert SplitInclusive(s, sep) == [s[..n]] + rest;
      SplitInclusiveConcat(s[n..], sep);
      ConcatCons(s[..n], rest);
      assert s[..n] + s[n..] == s;
    }
  }

  /** Every piece but the last ends at its first `sep`; the last does too or has none. */
  lemma {:induction false} SplitInclusiveCuts(s: seq<byte>, sep: seq<byte>)
    requires |sep| > 0
    ensures CutAfterEach(SplitInclusive(s, sep), sep)
    decreases |s|
  {
    if s != [] {
      var n := CutEnd(s, sep);
      var rest := SplitInclusive(s[n..], sep);
      SplitInclusiveCuts(s[n..], sep);
      assert SplitInclusive(s, sep) == [s[..n]] + rest;
      match Find(s, sep)
      case None =>
        assert CutAfterEach([s[..n]] + rest, sep) by {
          assert s[n..] == [] && s[..n] == s;
          assert rest == [];
        }
      case Some(i) =>
        assert EndsAtFirst(s[..n], sep) by {
          FirstPiece(s, sep, i);
        }
        ConsPiece(s[..n], rest, sep);
    }
  }

  lemma ConcatCons(piece: seq<byte>, rest: seq<seq<byte>>)
    ensures Concat([piece] + rest) == piece + Concat(rest)
  {
    assert ([piece] + rest)[1..] == rest;
  }

  /** The input up to and including its first occurrence of `sep` ends at that occurrence. */
  lemma FirstPiece(s: seq<byte>, sep: seq<byte>, i: nat)
    requires OccursAt(s, sep, i)
    requires forall j: nat :: j < i ==> !OccursAt(s, sep, j)
    ensures EndsAtFirst(s[..i + |sep|], sep)
  {
    var n := i + |sep|;
    assert s[..n][i..n] == s[i..n];
    forall j: nat | j < i ensures !OccursAt(s[..n], sep, j) {
      PrefixOccurrence(s, n, sep, j);
    }
  }

  /** A piece that ends at its first separator, in front of a valid split, is a valid split. */
  lemma ConsPiece(piece: seq<byte>, rest: seq<seq<byte>>, sep: seq<byte>)
    requires EndsAtFirst(piece, sep) && |sep| > 0
    requires CutAfterEach(rest, sep)
    ensures CutAfterEach([piece] + rest, sep)
  {
    var r := [piece] + rest;
    assert r[0] == piece && r[1..] == rest;
    forall k | 1 <= k < |r| ensures r[k] == rest[k - 1] {
    }
  }

  /** A piece longer than three bytes loses its last byte (the "\n"); a shorter one is kept. */
  function TrimPiece(p: seq<byte>): (r: seq<byte>)
    ensures |p| > 3 ==> r + [p[|p| - 1]] == p
    ensures |p| <= 3 ==> r == p
  {
    if |p| > 3 then p[..|p| - 1] else p
  }

  /** `parse_ents_hacky`: one clean entity per piece of the text cut after every "}\n". */
  function ParseEntsHacky(data: seq<byte>): (r: seq<Entity>)
    ensures var pieces := SplitInclusive(data, ENTITY_END);
      && |r| == |pieces|
      && forall k :: 0 <= k < |r| ==> r[k] == Entity(TrimPiece(pieces[k]), false)
  {
    var pieces := SplitInclusive(data, ENTITY_END);
    seq(|pieces|, k requires 0 <= k < |pieces| => Entity(TrimPiece(pieces[k]), false))
  }

  /** Each entity's text with the "\n" it lost put back. */
  function Restored(es: seq<Entity>): seq<byte> {
    if es == [] then [] else es[0].text + [NEWLINE] + Restored(es[1..])
  }

  /**
   * When the text ends with "}\n" and every block is longer than three bytes,
   * putting the stripped "\n" back after every entity gives the text again.
   */
  lemma ParseEntsHackyRestores(data: seq<byte>)
    requires EndsWith(data, ENTITY_END)
    requires forall p :: p in SplitInclusive(data, ENTITY_END) ==> |p| > 3
    ensures Restored(ParseEntsHacky(data)) == data
  {
    var pieces := SplitInclusive(data, ENTITY_END);
    SplitInclusiveConcat(data, ENTITY_END);
    SplitInclusiveCuts(data, ENTITY_END);
    assert EndsWith(pieces[|pieces| - 1], ENTITY_END) by {
      LastPieceEnds(pieces, data);
    }
    EveryPieceEnds(pieces, ENTITY_END);
    RestoredPieces(pieces, ParseEntsHacky(data));
  }

  /** When the text ends with "}\n", so does its last piece (which has more than three bytes). */
  lemma LastPieceEnds(pieces: seq<seq<byte>>, data: seq<byte>)
    requires pieces != [] && Concat(pieces) == data && EndsWith(data, ENTITY_END)
    requires forall p :: p in pieces ==> |p| > 3
    ensures EndsWith(pieces[|pieces| - 1], ENTITY_END)
  {
    var last := pieces[|pieces| - 1];
    assert last in pieces;
    ConcatLast(pieces);
  }

  /** In a valid split whose last piece ends with `sep`, every piece does. */
  lemma EveryPieceEnds(pieces: seq<seq<byte>>, sep: seq<byte>)
    requires CutAfterEach(pieces, sep)
    requires pieces != [] && EndsWith(pieces[|pieces| - 1], sep)
    ensures forall k :: 0 <= k < |pieces| ==> EndsWith(pieces[k], sep)
  {
    forall k | 0 <= k < |pieces| - 1 ensures EndsWith(pieces[k], sep) {
      assert EndsAtFirst(pieces[k], sep);
    }
  }

  /** The end of the concatenation is the end of its last piece. */
  lemma {:induction false} ConcatLast(pieces: seq<seq<byte>>)
    requires pieces != [] && |pieces[|pieces| - 1]| >= 2
    ensures |Concat(pieces)| >= 2
    ensures Concat(pieces)[|Concat(pieces)| - 2..] == pieces[|pieces| - 1][|pieces[|pieces| - 1]| - 2..]
  {
    if |pieces| > 1 {
      ConcatLast(pieces[1..]);
      assert pieces[1..][|pieces| - 2] == pieces[|pieces| - 1];
      var rest := Concat(pieces[1..]);
      assert (pieces[0] + rest)[|pieces[0] + rest| - 2..] == rest[|rest| - 2..];
    }
  }

  lemma {:induction false} RestoredPieces(pieces: seq<seq<byte>>, es: seq<Entity>)
    requires |es| == |pieces|
    requires forall k :: 0 <= k < |pieces| ==> |pieces[k]| > 3 && es[k].text == TrimPiece(pieces[k])
    requires forall k :: 0 <= k < |pieces| ==> EndsWith(pieces[k], ENTITY_END)
    ensures Restored(es) == Concat(pieces)
  {
    if pieces != [] {
      RestoredPieces(pieces[1..], es[1..]);
      var p := pieces[0];
      assert p[|p| - 2..] == ENTITY_END;
      assert p[|p| - 1] == NEWLINE;
      assert es[0].text + [NEWLINE] == p;
    }
  }

  // ---------------------------------------------------------------------
  // Display name
  // ---------------------------------------------------------------------

  /** A line without its "\r" when one ends it. */
  function StripCarriageReturn(l: seq<byte>): seq<byte> {
    if l != [] && l[|l| - 1] == CARRIAGE_RETURN then l[..|l| - 1] else l
  }

  /**
   * Rust's `str::lines`, on bytes: split at "\n", drop a "\r" just before the
   * "\n", no empty last line after a final "\n", no line at all for "".
   */
  function Lines(s: seq<byte>): seq<seq<byte>>
    decreases |s|
  {
    if s == [] then []
    else
      match Find(s, [NEWLINE])
      case None => [s]
      case Some(i) => [StripCarriageReturn(s[..i])] + Lines(s[i + 1..])
  }

  /** Each line followed by "\n". */
  function TerminatedLines(ls: seq<seq<byte>>): seq<byte> {
    if ls == [] then [] else ls[0] + [NEWLINE] + TerminatedLines(ls[1..])
  }

  /** A line as the editor writes it: no "\n" inside, no "\r" at its end. */
  predicate PlainLine(l: seq<byte>) {
    NEWLINE !in l && (l == [] || l[|l| - 1] != CARRIAGE_RETURN)
  }

  /** `lines` undoes writing plain lines one after the other with "\n" after each. */
  lemma {:induction false} LinesOfTerminated(ls: seq<seq<byte>>)
    requires forall l :: l in ls ==> PlainLine(l)
    ensures Lines(TerminatedLines(ls)) == ls
  {
    if ls != [] {
      var l := ls[0];
      var rest := TerminatedLines(ls[1..]);
      var s := l + [NEWLINE] + rest;
      assert OccursAt(s, [NEWLINE], |l|) by {
        assert s[|l|..|l| + 1] == [NEWLINE];
      }
      assert ls[0] in ls;
      forall j: nat | j < |l| ensures !OccursAt(s, [NEWLINE], j) {
        assert s[j] == l[j];
      }
      assert Find(s, [NEWLINE]) == Some(|l|);
      assert s[..|l|] == l;
      assert StripCarriageReturn(l) == l;
      assert s[|l| + 1..] == rest;
      LinesOfTerminated(ls[1..]);
      assert ls == [l] + ls[1..];
    }
  }

  datatype LineKind = ClassnameLine | OriginLine | OtherLine

  /** How the display-name loop treats a line: the classname test comes first. */
  function KindOf(l: seq<byte>): LineKind {
    if StartsWith(l, CLASSNAME_PREFIX) then ClassnameLine
    else if StartsWith(l, ORIGIN_PREFIX) then OriginLine
    else OtherLine
  }

  /**
   * Where the loop takes a value from: as written, both kinds of line are
   * sliced from byte 13, the classname prefix's length; as evidently
   * intended, an origin line is sliced after its own 10-byte prefix.
   */
  datatype Slicing = AsWritten | Intended

  function ValueStart(kind: LineKind, slicing: Slicing): nat {
    if slicing == Intended && kind == OriginLine then |ORIGIN_PREFIX| else |CLASSNAME_PREFIX|
  }

  /**
   * A classname or origin line too short for the slice the loop takes: from
   * the value start up to, and without, the last byte.
   */
  predicate Unsliceable(l: seq<byte>, slicing: Slicing) {
    KindOf(l) != OtherLine && |l| < ValueStart(KindOf(l), slicing) + 1
  }

  /** The value the loop takes from a classname or origin line. */
  function ValueOf(l: seq<byte>, slicing: Slicing): seq<byte>
    requires |l| >= ValueStart(KindOf(l), slicing) + 1
  {
    l[ValueStart(KindOf(l), slicing)..|l| - 1]
  }

  /** The value of the last line of kind `kind`, if any (no line of that kind may be unsliceable). */
  function LastValue(ls: seq<seq<byte>>, kind: LineKind, slicing: Slicing): Option<seq<byte>>
    requires forall l :: l in ls ==> !Unsliceable(l, slicing)
  {
    if ls == [] then None
    else
      var l := ls[|ls| - 1];
      assert l in ls;
      assert !Unsliceable(l, slicing);
      if KindOf(l) == kind && kind != OtherLine then Some(ValueOf(l, slicing))
      else LastValue(ls[..|ls| - 1], kind, slicing)
  }

  /** The lines up to `i` inclusive: the `i`-th decides when it has the kind sought. */
  lemma LastValueStep(ls: seq<seq<byte>>, i: nat, kind: LineKind, slicing: Slicing)
    requires i < |ls| && !Unsliceable(ls[i], slicing)
    requires forall l :: l in ls[..i] ==> !Unsliceable(l, slicing)
    ensures forall l :: l in ls[..i + 1] ==> !Unsliceable(l, slicing)
    ensures LastValue(ls[..i + 1], kind, slicing) ==
              if KindOf(ls[i]) == kind && kind != OtherLine then Some(ValueOf(ls[i], slicing))
              else LastValue(ls[..i], kind, slicing)
  {
    assert ls[..i + 1] == ls[..i] + [ls[i]];
    assert ls[..i + 1][..i] == ls[..i];
  }

  /**
   * `Entity::pretty_name` as a function of the text: None where the slice of
   * a short classname or origin line fails; otherwise the value of the last
   * classname line (empty if none) followed, when there is an origin line,
   * by the value of the last one between "<" and ">".
   */
  function DisplayName(text: seq<byte>, slicing: Slicing): Option<seq<byte>> {
    var ls := Lines(text);
    if exists l :: l in ls && Unsliceable(l, slicing) then None
    else
      var classname := match LastValue(ls, ClassnameLine, slicing) case Some(c) => c case None => [];
      match LastValue(ls, OriginLine, slicing)
      case None => Some(classname)
      case Some(origin) => Some(classname + [LESS_THAN] + origin + [GREATER_THAN])
  }

  /** `Entity::pretty_name`: one pass over the lines, keeping the last classname and origin seen. */
  method PrettyName(e: Entity) returns (r: Option<seq<byte>>)
    ensures r == DisplayName(e.text, AsWritten)
  {
    var ls := Lines(e.text);
    var classname: seq<byte> := [];
    var origin: Option<seq<byte>> := None;
    for i := 0 to |ls|
      invariant forall l :: l in ls[..i] ==> !Unsliceable(l, AsWritten)
      invariant classname == match LastValue(ls[..i], ClassnameLine, AsWritten) case Some(c) => c case None => []
      invariant origin == LastValue(ls[..i], OriginLine, AsWritten)
    {
      var line := ls[i];
      if StartsWith(line, CLASSNAME_PREFIX) {
        if |line| < |CLASSNAME_PREFIX| + 1 {
          assert Unsliceable(line, AsWritten) && line in ls;
          return None;
        }
        classname := ValueOf(line, AsWritten);
      } else if StartsWith(line, ORIGIN_PREFIX) {
        if |line| < |CLASSNAME_PREFIX| + 1 {
          assert Unsliceable(line, AsWritten) && line in ls;
          return None;
        }
        origin := Some(ValueOf(line, AsWritten));
      }
      LastValueStep(ls, i, ClassnameLine, AsWritten);
      LastValueStep(ls, i, OriginLine, AsWritten);
    }
    assert ls[..|ls|] == ls;
    match origin {
      case Some(o) => r := Some(classname + [LESS_THAN] + o + [GREATER_THAN]);
      case None => r := Some(classname);
    }
  }

  /** The display name of an entity whose lines are other, classname, origin, other. */
  lemma DisplayNameOfFourLines(text: seq<byte>, slicing: Slicing)
    requires |Lines(text)| == 4
    requires KindOf(Lines(text)[0]) == OtherLine && KindOf(Lines(text)[3]) == OtherLine
    requires KindOf(Lines(text)[1]) == ClassnameLine && !Unsliceable(Lines(text)[1], slicing)
    requires KindOf(Lines(text)[2]) == OriginLine
    ensures DisplayName(text, slicing) ==
              if Unsliceable(Lines(text)[2], slicing) then None
              else Some(ValueOf(Lines(text)[1], slicing) + [LESS_THAN] + ValueOf(Lines(text)[2], slicing) + [GREATER_THAN])
  {
    var ls := Lines(text);
    if Unsliceable(ls[2], slicing) {
      assert ls[2] in ls;
    } else {
      forall l | l in ls ensures !Unsliceable(l, slicing) {
      }
      LastValuesOfFour(ls, slicing);
    }
  }

  /** Four lines: other, classname, origin, other; the last values are those of the middle two. */
  lemma LastValuesOfFour(ls: seq<seq<byte>>, slicing: Slicing)
    requires |ls| == 4 && forall l :: l in ls ==> !Unsliceable(l, slicing)
    requires KindOf(ls[0]) == OtherLine && KindOf(ls[3]) == OtherLine
    requires KindOf(ls[1]) == ClassnameLine && KindOf(ls[2]) == OriginLine
    requires !Unsliceable(ls[1], slicing) && !Unsliceable(ls[2], slicing)
    ensures LastValue(ls, ClassnameLine, slicing) == Some(ValueOf(ls[1], slicing))
    ensures LastValue(ls, OriginLine, slicing) == Some(ValueOf(ls[2], slicing))
  {
    assert ls[..0] == [];
    LastValueStep(ls, 0, ClassnameLine, slicing);
    LastValueStep(ls, 0, OriginLine, slicing);
    LastValueStep(ls, 1, ClassnameLine, slicing);
    LastValueStep(ls, 1, OriginLine, slicing);
    LastValueStep(ls, 2, ClassnameLine, slicing);
    LastValueStep(ls, 2, OriginLine, slicing);
    LastValueStep(ls, 3, ClassnameLine, slicing);
    LastValueStep(ls, 3, OriginLine, slicing);
    assert ls[..4] == ls;
  }

  /** The text of an entity written as `{`, a classname line, an origin line and `}`. */
  function EntityLines(classname: seq<byte>, origin: seq<byte>): seq<byte> {
    TerminatedLines([[0x7B], CLASSNAME_PREFIX + classname + [0x22], ORIGIN_PREFIX + origin + [0x22], [0x7D]])
  }

  /** Both slicings read the four lines of such an entity back as written. */
  lemma EntityLinesRead(classname: seq<byte>, origin: seq<byte>, slicing: Slicing)
    requires PlainLine(classname) && PlainLine(origin)
    ensures var ls := Lines(EntityLines(classname, origin));
      && |ls| == 4 && ls[2] == ORIGIN_PREFIX + origin + [0x22]
      && KindOf(ls[0]) == OtherLine && KindOf(ls[3]) == OtherLine
      && KindOf(ls[1]) == ClassnameLine && !Unsliceable(ls[1], slicing) && ValueOf(ls[1], slicing) == classname
      && KindOf(ls[2]) == OriginLine
  {
    var cl := CLASSNAME_PREFIX + classname + [0x22];
    var ol := ORIGIN_PREFIX + origin + [0x22];
    var ls := [[0x7B], cl, ol, [0x7D]];
    ClassnameLineFacts(classname);
    OriginLineFacts(origin);
    assert PlainLine([0x7B]) && PlainLine([0x7D]);
    assert KindOf([0x7B]) == OtherLine && KindOf([0x7D]) == OtherLine;
    LinesOfTerminated(ls);
  }

  /**
   * As written: the display name of such an entity is the classname and,
   * because the origin is sliced from byte 13 of a line whose prefix has 10,
   * the origin without its first three bytes; an origin shorter than three
   * bytes makes the slice fail.
   */
  lemma DisplayNameOfEntity(classname: seq<byte>, origin: seq<byte>)
    requires PlainLine(classname) && PlainLine(origin)
    ensures DisplayName(EntityLines(classname, origin), AsWritten) ==
              if |origin| < 3 then None else Some(classname + [LESS_THAN] + origin[3..] + [GREATER_THAN])
  {
    EntityLinesRead(classname, origin, AsWritten);
    OriginLineFacts(origin);
    DisplayNameOfFourLines(EntityLines(classname, origin), AsWritten);
  }

  /** As intended: the display name of such an entity is "classname<origin>", whatever the origin. */
  lemma IntendedDisplayNameOfEntity(classname: seq<byte>, origin: seq<byte>)
    requires PlainLine(classname) && PlainLine(origin)
    ensures DisplayName(EntityLines(classname, origin), Intended) ==
              Some(classname + [LESS_THAN] + origin + [GREATER_THAN])
  {
    EntityLinesRead(classname, origin, Intended);
    OriginLineFacts(origin);
    DisplayNameOfFourLines(EntityLines(classname, origin), Intended);
  }

  /** A classname line: its kind, and the value either slicing takes from it. */
  lemma ClassnameLineFacts(classname: seq<byte>)
    requires PlainLine(classname)
    ensures var cl := CLASSNAME_PREFIX + classname + [0x22];
      && PlainLine(cl) && KindOf(cl) == ClassnameLine
      && !Unsliceable(cl, AsWritten) && ValueOf(cl, AsWritten) == classname
      && !Unsliceable(cl, Intended) && ValueOf(cl, Intended) == classname
  {
    var cl := CLASSNAME_PREFIX + classname + [0x22];
    QuotedLine(CLASSNAME_PREFIX, classname);
    assert cl[..|CLASSNAME_PREFIX|] == CLASSNAME_PREFIX;
    assert cl[|CLASSNAME_PREFIX|..|cl| - 1] == classname;
  }

  /**
   * An origin line: its kind; as written, the slice from byte 13 fails for
   * an origin shorter than three bytes and drops three bytes otherwise; as
   * intended, the slice yields the origin.
   */
  lemma OriginLineFacts(origin: seq<byte>)
    requires PlainLine(origin)
    ensures var ol := ORIGIN_PREFIX + origin + [0x22];
      && PlainLine(ol) && KindOf(ol) == OriginLine
      && (Unsliceable(ol, AsWritten) <==> |origin| < 3)
      && (|origin| >= 3 ==> ValueOf(ol, AsWritten) == origin[3..])
      && !Unsliceable(ol, Intended) && ValueOf(ol, Intended) == origin
  {
    var ol := ORIGIN_PREFIX + origin + [0x22];
    QuotedLine(ORIGIN_PREFIX, origin);
    assert ol[..|ORIGIN_PREFIX|] == ORIGIN_PREFIX;
    assert !StartsWith(ol, CLASSNAME_PREFIX) by {
      assert ol[1] == 0x6F;
    }
    assert ol[|ORIGIN_PREFIX|..|ol| - 1] == origin;
    if |origin| >= 3 {
      assert ol[|CLASSNAME_PREFIX|..|ol| - 1] == origin[3..];
    }
  }

  /** A prefix without "\n", a plain value and a closing quote make a plain line. */
  lemma QuotedLine(prefix: seq<byte>, value: seq<byte>)
    requires NEWLINE !in prefix && PlainLine(value)
    ensures PlainLine(prefix + value + [0x22])
  {
  }
}
