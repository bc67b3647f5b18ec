/** The parts of the question form with logic of their own: the render-mode tags, the two
    input validators, and the in-place rotation of the colour cycle used by the spinner. */
module Form {

  const MaxTitleLength: nat := 25

  /** The render-mode tags offered by the multi-select question. */
  const SidePanel := "renderInSidePanel"
  const ModuleDaemon := "renderInDaemon"
  const Panel := "renderInPanel"
  const Settings := "renderInSettings"

  datatype FormError =
    | InvalidCharacters
    | TitleTooLong(max: nat, actual: nat)
    | NoRenderMode

  /** What a validator returns: Go's `nil` error, or the error it builds. */
  datatype Validation = Accepted | Rejected(error: FormError)

  /** A blend colour: an opaque colour value, or Go's `nil` interface value. */
  datatype Color<C> = Nil | Shade(value: C)

  predicate IsTitleChar(c: char)
  {
    'a' <= c <= 'z' || 'A' <= c <= 'Z' || c == ' '
  }

  predicate AllTitleChars(s: string)
  {
    forall i :: 0 <= i < |s| ==> IsTitleChar(s[i])
  }

  /** The titles the form lets through. */
  predicate TitleAcceptable(s: string)
  {
    AllTitleChars(s) && |s| <= MaxTitleLength
  }

  /** The title question's validator: characters are checked first, length second, so a
      title that fails both reports the character error. */
  method ValidateTitle(str: string) returns (v: Validation)
    ensures v == Accepted <==> TitleAcceptable(str)
    ensures !AllTitleChars(str) ==> v == Rejected(InvalidCharacters)
    ensures AllTitleChars(str) && |str| > MaxTitleLength ==> v == Rejected(TitleTooLong(MaxTitleLength, |str|))
  {
    var i := 0;
    while i < |str|
      invariant 0 <= i <= |str|
      invariant forall k :: 0 <= k < i ==> IsTitleChar(str[k])
    {
      var ch := str[i];
      if !((ch >= 'a' && ch <= 'z') || (ch >= 'A' && ch <= 'Z') || ch == ' ') {
        return Rejected(InvalidCharacters);
      }
      i := i + 1;
    }
    if |str| > MaxTitleLength {
      return Rejected(TitleTooLong(MaxTitleLength, |str|));
    }
    return Accepted;
  }

  /** The render-mode question's validator: only the empty selection is refused. */
  function ValidateRenderModes(s: seq<string>): (v: Validation)
    ensures v == Accepted <==> s != []
    ensures v != Accepted ==> v == Rejected(NoRenderMode)
  {
    if |s| == 0 then Rejected(NoRenderMode) else Accepted
  }

  /** What `rotateBlend` leaves in the slice: for two or more colours a right rotation by
      one; a single colour is replaced by `nil`; the empty slice is left alone. */
  function Rotated<C>(s: seq<Color<C>>): (r: seq<Color<C>>)
    ensures |r| == |s|
    ensures |s| >= 2 ==> r[0] == s[|s| - 1] && forall i :: 1 <= i < |s| ==> r[i] == s[i - 1]
    ensures |s| == 1 ==> r == [Nil]
  {
    if |s| == 0 then s
    else if |s| == 1 then [Nil]
    else [s[|s| - 1]] + s[..|s| - 1]
  }

  /** Small facts about `%`, kept apart so that the proof using them sees no other
      arithmetic. */
  lemma ModBelow(x: int, n: int)
    requires 0 <= x < n
    ensures x % n == x
  {
  }

  lemma ModSelf(n: int)
    requires n > 0
    ensures n % n == 0
  {
  }

  /** Except on a single colour, `rotateBlend` moves every colour to the next position
      round the cycle: what was at `i` is found at `(i + 1) mod n`. */
  lemma RotatedIsCyclicShift<C>(s: seq<Color<C>>)
    requires |s| != 1
    ensures forall i :: 0 <= i < |s| ==> Rotated(s)[(i + 1) % |s|] == s[i]
  {
    var n := |s|;
    var r := Rotated(s);
    forall i | 0 <= i < n
      ensures r[(i + 1) % n] == s[i]
    {
      if i < n - 1 {
        ModBelow(i + 1, n);
      } else {
        ModSelf(n);
      }
    }
  }

  /** `k` successive rotations. */
  function RotatedTimes<C>(s: seq<Color<C>>, k: nat): (r: seq<Color<C>>)
    ensures |r| == |s|
  {
    if k == 0 then s else Rotated(RotatedTimes(s, k - 1))
  }

  /** Rotating a cycle split after position `j` moves the split one place back. */
  lemma RotatedSplit<C>(s: seq<Color<C>>, j: nat)
    requires |s| >= 2 && j < |s|
    ensures Rotated(s[j + 1..] + s[..j + 1]) == s[j..] + s[..j]
  {
    var front, back := s[j + 1..], s[..j + 1];
    var u := front + back;
    var n := |u|;
    assert u[n - 1] == back[j] == s[j];
    assert u[..n - 1] == front + s[..j] by {
      assert back[..j] == s[..j];
    }
    assert [s[j]] + front == s[j..];
  }

  /** After `k` rotations of at least two colours, the last `k` colours come first. */
  lemma {:induction false} RotatedTimesSplit<C>(s: seq<Color<C>>, k: nat)
    requires |s| >= 2 && k <= |s|
    ensures RotatedTimes(s, k) == s[|s| - k..] + s[..|s| - k]
  {
    if k == 0 {
      assert s[|s|..] + s[..|s|] == s;
    } else {
      var j := |s| - k;
      assert RotatedTimes(s, k - 1) == s[j + 1..] + s[..j + 1] by {
        RotatedTimesSplit(s, k - 1);
      }
      RotatedSplit(s, j);
    }
  }

  /** As many rotations as there are colours (at least two) restore the original cycle. */
  lemma FullTurnRestores<C>(s: seq<Color<C>>)
    requires |s| >= 2
    ensures RotatedTimes(s, |s|) == s
  {
    RotatedTimesSplit(s, |s|);
  }

  /** A single colour does not survive a rotation: it becomes `nil`. */
  lemma SingleColourLost<C>(c: C)
    ensures Rotated([Shade(c)]) != [Shade(c)]
  {
  }

  /** `rotateBlend`: shuffles the colours one place to the right in place, carrying the
      previous colour along, then stores the last colour read into position 0; returns the
      same slice. */
  method RotateBlend<C>(blend: array<Color<C>>) returns (r: array<Color<C>>)
    modifies blend
    ensures r == blend
    ensures blend[..] == Rotated(old(blend[..]))
  {
    if blend.Length == 0 {
      return blend;
    }

    var previousColor := blend[0];
    var nextColor: Color<C> := Nil;
    var i := 0;
    while i < blend.Length - 1
      invariant 0 <= i <= blend.Length - 1
      invariant previousColor == old(blend[i])
      invariant nextColor == if i == 0 then Nil else old(blend[i])
      invariant blend[0] == old(blend[0])
      invariant forall k :: 1 <= k <= i ==> blend[k] == old(blend[k - 1])
      invariant forall k :: i < k < blend.Length ==> blend[k] == old(blend[k])
    {
      nextColor := blend[i + 1];
      blend[i + 1] := previousColor;
      previousColor := nextColor;
      i := i + 1;
    }

    blend[0] := nextColor;
    ghost var rotated := Rotated(old(blend[..]));
    forall k | 0 <= k < blend.Length
      ensures blend[k] == rotated[k]
    {
    }
    assert blend[..] == rotated;
    return blend;
  }
}
