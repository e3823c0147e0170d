/** The letter handling of `generate_tats` (knuxtats.py): the text is
    squeezed to eight letters, and each letter is paired with one of eight
    fixed knuckle positions. Drawing and PNG encoding are outside the model. */
module Tattoo {

  /** The number of knuckles, and so of letters. */
  const Width: nat := 8

  /** The pixel positions the letters are drawn at, one per knuckle. */
  const Positions: seq<(int, int)> :=
    [(33, 130), (85, 114), (144, 101), (217, 87), (366, 88), (435, 96), (509, 112), (568, 123)]

  /** `s.replace(" ", "")`. */
  function RemoveSpaces(s: string): (r: string)
    ensures ' ' !in r
    ensures |r| <= |s|
    decreases |s|
  {
    if |s| == 0 then ""
    else if s[0] == ' ' then RemoveSpaces(s[1..])
    else [s[0]] + RemoveSpaces(s[1..])
  }

  /** Removing spaces works piecewise: it distributes over concatenation. */
  lemma {:induction false} RemoveSpacesAppend(a: string, b: string)
    ensures RemoveSpaces(a + b) == RemoveSpaces(a) + RemoveSpaces(b)
    decreases |a|
  {
    if |a| == 0 {
      assert a + b == b;
    } else {
      RemoveSpacesAppend(a[1..], b);
      assert (a + b)[1..] == a[1..] + b;
    }
  }

  /** A string without spaces is left as it is. */
  lemma {:induction false} RemoveSpacesFixed(s: string)
    requires ' ' !in s
    ensures RemoveSpaces(s) == s
    decreases |s|
  {
    if |s| > 0 {
      RemoveSpacesFixed(s[1..]);
      assert s == [s[0]] + s[1..];
    }
  }

  /** `" " * n`. */
  function Spaces(n: nat): (r: string)
    ensures |r| == n
    ensures forall i :: 0 <= i < n ==> r[i] == ' '
    decreases n
  {
    if n == 0 then "" else " " + Spaces(n - 1)
  }

  lemma {:induction false} RemoveSpacesOfSpaces(n: nat)
    ensures RemoveSpaces(Spaces(n)) == ""
    decreases n
  {
    if n > 0 {
      RemoveSpacesOfSpaces(n - 1);
      assert Spaces(n)[1..] == Spaces(n - 1);
    }
  }

  function Min(a: nat, b: nat): nat {
    if a < b then a else b
  }

  /** The letter normalisation of `generate_tats`: drop every space, keep the
      first eight characters (`[:8]`), and pad with spaces to eight. */
  function Normalise(letters: string): (r: string)
    ensures |r| == Width
    ensures var kept := Min(|RemoveSpaces(letters)|, Width);
            && r[..kept] == RemoveSpaces(letters)[..kept]
            && forall i :: 0 <= i < Width ==> (r[i] == ' ' <==> i >= kept)
    ensures |RemoveSpaces(letters)| >= Width ==> ' ' !in r
  {
    var squeezed := RemoveSpaces(letters);
    var cut := if |squeezed| > Width then squeezed[..Width] else squeezed;
    if |cut| < Width then cut + Spaces(Width - |cut|) else cut
  }

  /** Normalising a normalised text changes nothing. */
  lemma NormaliseIdempotent(letters: string)
    ensures Normalise(Normalise(letters)) == Normalise(letters)
  {
    var r := Normalise(letters);
    var kept := Min(|RemoveSpaces(letters)|, Width);
    var p := r[..kept];
    assert r == p + Spaces(Width - kept);
    assert ' ' !in p by {
      forall i | 0 <= i < |p| ensures p[i] != ' ' {
        assert p[i] == r[i];
      }
    }
    RemoveSpacesAppend(p, Spaces(Width - kept));
    RemoveSpacesFixed(p);
    RemoveSpacesOfSpaces(Width - kept);
    assert RemoveSpaces(r) == p;
  }

  /** Python's `zip`: pairs up to the shorter length. */
  function Zip<A, B>(a: seq<A>, b: seq<B>): (r: seq<(A, B)>)
    ensures |r| == Min(|a|, |b|)
    ensures forall i :: 0 <= i < |r| ==> r[i] == (a[i], b[i])
    decreases |a|
  {
    if |a| == 0 || |b| == 0 then [] else [(a[0], b[0])] + Zip(a[1..], b[1..])
  }

  /** What the drawing loop iterates over: the i-th normalised letter with
      the i-th knuckle position, for all eight knuckles. */
  function Placements(letters: string): (r: seq<(char, (int, int))>)
    ensures |r| == Width && |Positions| == Width
    ensures forall i :: 0 <= i < Width ==> r[i].0 == Normalise(letters)[i] && r[i].1 == Positions[i]
  {
    Zip(Normalise(letters), Positions)
  }

  /** The default query text `"KNUK TATS"` becomes `"KNUKTATS"`. */
  lemma DefaultText()
    ensures Normalise("KNUK TATS") == "KNUKTATS"
  {
    var knuk, tats := "KNUK", "TATS";
    assert ' ' !in knuk && ' ' !in tats;
    RemoveSpacesFixed(knuk);
    RemoveSpacesFixed(tats);
    assert RemoveSpaces(" ") == "";
    RemoveSpacesAppend(" ", tats);
    RemoveSpacesAppend(knuk, " " + tats);
    assert knuk + (" " + tats) == "KNUK TATS";
    assert knuk + tats == "KNUKTATS";
    assert RemoveSpaces("KNUK TATS") == "KNUKTATS";
  }
}
