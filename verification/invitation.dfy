/** `generate_invitation_image`: the output file name derived from the
    recipient's name, and the outcome of the patch-and-draw recipe. */
module Invitation {
  import opened Optional
  import opened Strings
  import Ribbon

  /** `c.isalnum()`, for ASCII letters and digits. */
  predicate IsAlnum(c: char) {
    ('a' <= c <= 'z') || ('A' <= c <= 'Z') || ('0' <= c <= '9')
  }

  /** The characters the sanitiser keeps. */
  predicate IsSafeChar(c: char) {
    IsAlnum(c) || c == ' ' || c == '_' || c == '-'
  }

  predicate AllSafe(s: string) {
    forall i | 0 <= i < |s| :: IsSafeChar(s[i])
  }

  /** The kept characters that carry content: all but the space. */
  predicate IsSignificant(c: char) {
    IsSafeChar(c) && c != ' '
  }

  /** The filter `[c for c in name if c.isalnum() or c in (' ', '_', '-')]`. */
  function KeepSafe(name: string): (kept: string)
    ensures |kept| <= |name|
    ensures AllSafe(kept)
  {
    if name == [] then []
    else (if IsSafeChar(name[0]) then [name[0]] else []) + KeepSafe(name[1..])
  }

  /** The significant characters of `s`, in order. */
  function Significant(s: string): (sig: string)
    ensures forall i | 0 <= i < |sig| :: IsSignificant(sig[i])
  {
    if s == [] then []
    else (if IsSignificant(s[0]) then [s[0]] else []) + Significant(s[1..])
  }

  const Fallback: string := "Guest"

  /** The sanitised name used in the output file name. It is never empty,
      holds only letters, digits, spaces, `_` and `-`, has no space at
      either end, and keeps every letter, digit, `_` and `-` of `name` in
      order; when `name` has none of them it is "Guest". */
  function SafeName(name: string): (safe: string)
    ensures safe != []
    ensures AllSafe(safe)
    ensures safe[0] != ' ' && safe[|safe| - 1] != ' '
    ensures Significant(name) == [] ==> safe == Fallback
    ensures Significant(name) != [] ==> Significant(safe) == Significant(name)
  {
    var kept := KeepSafe(name);
    var stripped := Strip(kept);
    SignificantOfKept(name);
    SignificantOfStrip(kept);
    StripKeepsSafe(kept);
    if stripped == [] then
      FallbackIsSafe();
      Fallback
    else
      SignificantNonEmpty(stripped, 0);
      stripped
  }

  lemma FallbackIsSafe()
    ensures AllSafe(Fallback) && Fallback[0] != ' ' && Fallback[|Fallback| - 1] != ' '
  {
  }

  lemma {:induction false} SignificantConcat(a: string, b: string)
    ensures Significant(a + b) == Significant(a) + Significant(b)
  {
    if a == [] {
      assert a + b == b;
    } else {
      assert (a + b)[0] == a[0];
      assert (a + b)[1..] == a[1..] + b;
      SignificantConcat(a[1..], b);
    }
  }

  /** Filtering drops no significant character. */
  lemma {:induction false} SignificantOfKept(name: string)
    ensures Significant(KeepSafe(name)) == Significant(name)
  {
    if name != [] {
      var head := if IsSafeChar(name[0]) then [name[0]] else [];
      SignificantConcat(head, KeepSafe(name[1..]));
      SignificantOfKept(name[1..]);
    }
  }

  lemma {:induction false} SignificantNonEmpty(s: string, i: nat)
    requires i < |s| && IsSafeChar(s[i]) && !IsSpace(s[i])
    ensures Significant(s) != []
  {
    if i > 0 {
      SignificantNonEmpty(s[1..], i - 1);
    }
  }

  /** Whitespace carries no significant character. */
  lemma {:induction false} SignificantOfSpaces(s: string)
    requires AllSpace(s)
    ensures Significant(s) == []
  {
    if s != [] {
      assert s[1..][0..] == s[1..];
      SignificantOfSpaces(s[1..]);
    }
  }

  /** Whitespace around a text adds no significant character. */
  lemma SignificantOfSurrounded(x: string, m: string, y: string)
    requires AllSpace(x) && AllSpace(y)
    ensures Significant(x + m + y) == Significant(m)
  {
    SignificantConcat(x + m, y);
    SignificantConcat(x, m);
    SignificantOfSpaces(x);
    SignificantOfSpaces(y);
  }

  /** Stripping only removes whitespace, which is never significant. */
  lemma SignificantOfStrip(s: string)
    ensures Significant(Strip(s)) == Significant(s)
  {
    var a, b := StripBounds(s);
    assert s == s[..a] + s[a..b] + s[b..];
    assert AllSpace(s[..a]) && AllSpace(s[b..]);
    SignificantOfSurrounded(s[..a], s[a..b], s[b..]);
  }

  lemma StripKeepsSafe(s: string)
    requires AllSafe(s)
    ensures AllSafe(Strip(s))
  {
    var a, b := StripBounds(s);
    assert forall i | 0 <= i < b - a :: Strip(s)[i] == s[a + i];
  }

  lemma {:induction false} KeepSafeConcat(a: string, b: string)
    ensures KeepSafe(a + b) == KeepSafe(a) + KeepSafe(b)
  {
    if a == [] {
      assert a + b == b;
    } else {
      var head := if IsSafeChar(a[0]) then [a[0]] else [];
      assert (a + b)[0] == a[0];
      assert (a + b)[1..] == a[1..] + b;
      assert KeepSafe(a + b) == head + KeepSafe(a[1..] + b);
      KeepSafeConcat(a[1..], b);
      assert KeepSafe(a) == head + KeepSafe(a[1..]);
      assert head + (KeepSafe(a[1..]) + KeepSafe(b)) == (head + KeepSafe(a[1..])) + KeepSafe(b);
    }
  }

  /** The filter deletes exactly the characters that are not safe: removing
      one unsafe character from the name does not change what is kept. */
  lemma KeepSafeDropsUnsafe(x: string, c: char, y: string)
    requires !IsSafeChar(c)
    ensures KeepSafe(x + [c] + y) == KeepSafe(x + y)
  {
    KeepSafeConcat(x + [c], y);
    KeepSafeConcat(x, [c]);
    KeepSafeConcat(x, y);
    assert [c][1..] == [];
  }

  /** An unsafe character anywhere in the name has no effect on the
      sanitised name. */
  lemma SafeNameIgnoresUnsafe(x: string, c: char, y: string)
    requires !IsSafeChar(c)
    ensures SafeName(x + [c] + y) == SafeName(x + y)
  {
    KeepSafeDropsUnsafe(x, c, y);
  }

  /** A name made only of safe characters, not all spaces, is only
      stripped: its inner spaces are kept. With `SafeNameIgnoresUnsafe`
      this determines the sanitised name of every name. */
  lemma SafeNameOfSafe(name: string)
    requires AllSafe(name) && !AllSpace(name)
    ensures SafeName(name) == Strip(name)
  {
    KeepSafeIdentity(name);
  }

  /** "A B" keeps its inner space and becomes the file `Invitation_A B.png`. */
  lemma ExampleInnerSpaceKept(name: string)
    requires name == "A B"
    ensures SafeName(name) == "A B"
  {
    assert AllSafe(name) && !IsSpace(name[0]) && !IsSpace(name[2]);
    SafeNameOfSafe(name);
    StripIdentity(name);
  }

  /** Sanitising a sanitised name changes nothing. */
  lemma SafeNameIdempotent(name: string)
    ensures SafeName(SafeName(name)) == SafeName(name)
  {
    var safe := SafeName(name);
    KeepSafeIdentity(safe);
    OnlySpaceIsWhitespace(safe[0]);
    OnlySpaceIsWhitespace(safe[|safe| - 1]);
    StripIdentity(safe);
  }

  /** The space is the only whitespace character the sanitiser keeps. */
  lemma OnlySpaceIsWhitespace(c: char)
    requires IsSafeChar(c) && c != ' '
    ensures !IsSpace(c)
  {
  }

  lemma {:induction false} KeepSafeIdentity(s: string)
    requires AllSafe(s)
    ensures KeepSafe(s) == s
  {
    if s != [] {
      assert AllSafe(s[1..]) by {
        assert forall i | 0 <= i < |s[1..]| :: s[1..][i] == s[i + 1];
      }
      KeepSafeIdentity(s[1..]);
    }
  }

  const Prefix: string := "Invitation_"
  const Extension: string := ".png"

  /** `f"Invitation_{safe_name}.png"`: before the ".png" extension only
      letters, digits, spaces, `_` and `-` occur, so the name is one path
      component with no dot before its extension, and the sanitised name
      can be read back from it. */
  function OutputFilename(name: string): (file: string)
    ensures Prefix <= file
    ensures |file| == |Prefix| + |SafeName(name)| + |Extension|
    ensures file[|file| - |Extension|..] == Extension
    ensures file[|Prefix|..|file| - |Extension|] == SafeName(name)
    ensures AllSafe(file[..|file| - |Extension|])
  {
    var safe := SafeName(name);
    var file := Prefix + safe + Extension;
    assert file[|Prefix|..|file| - |Extension|] == safe;
    assert file[..|file| - |Extension|] == Prefix + safe;
    PrefixIsSafe();
    AllSafeConcat(Prefix, safe);
    file
  }

  lemma PrefixIsSafe()
    ensures AllSafe(Prefix)
  {
  }

  lemma AllSafeConcat(a: string, b: string)
    requires AllSafe(a) && AllSafe(b)
    ensures AllSafe(a + b)
  {
    assert forall i | |a| <= i < |a + b| :: (a + b)[i] == b[i - |a|];
  }

  /** Two names share an output file exactly when they sanitise alike, so a
      later image overwrites an earlier one only in that case. */
  lemma FilenameCollision(a: string, b: string)
    ensures OutputFilename(a) == OutputFilename(b) <==> SafeName(a) == SafeName(b)
  {
    var fa, fb := OutputFilename(a), OutputFilename(b);
    if fa == fb {
      assert fa[|Prefix|..|fa| - |Extension|] == fb[|Prefix|..|fb| - |Extension|];
    }
  }

  /** `generate_invitation_image` with its I/O made into parameters: whether
      the template file exists, the pixel bounds of the patch, the width
      measure of the upper-cased name and whether the font file opens. It
      yields the output file name when the image is written, and nothing
      when the template is missing or when no font was measured, because
      drawing then reads an unbound text width and the handler returns
      `None`. The tiling loop must stop, hence the precondition. */
  method GenerateInvitationImage(
    name: string, templateExists: bool,
    targetStart: int, targetEnd: int, srcWidth: int,
    measure: int -> int, fontOpens: bool, startSize: int, minSize: int, maxWidth: int)
    returns (output: Option<string>)
    requires srcWidth > 0 || targetEnd <= targetStart
    ensures output.Some? <==> templateExists && fontOpens && startSize > minSize
    ensures output.Some? ==> output.value == OutputFilename(name)
  {
    var file := OutputFilename(name);
    if !templateExists {
      return None;
    }
    var pastes := Ribbon.TileRibbon(targetStart, targetEnd, srcWidth);
    var fit, tried := Ribbon.FitFont(measure, fontOpens, startSize, minSize, maxWidth);
    if fit.Unmeasured? {
      return None;
    }
    output := Some(file);
  }
}
