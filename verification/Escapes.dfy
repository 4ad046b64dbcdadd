/**
 How a captured transcript is cut into typed characters and escape sequences. The
 program matches three regular expressions in turn; here each is a relation on text,
 beside the scan that finds the one match it has.
 */
module Escapes {
  import opened Common

  datatype Piece = Typed(ch: char) | Control(params: string, final: char) | Ignored

  const ESC := '\U{1b}'
  const BEL := '\U{7}'

  predicate IsParam(c: char) {
    c in "0123456789;:<=>?"
  }

  predicate IsIntermediate(c: char) {
    ' ' <= c <= '/'
  }

  predicate IsFinal(c: char) {
    '@' <= c <= '~'
  }

  // ----- the expressions, as relations

  ghost predicate All(s: string, class_: char -> bool) {
    forall i :: 0 <= i < |s| ==> class_(s[i])
  }

  /** `s` is a whole control sequence. */
  ghost predicate IsCsi(s: string, params: string, final: char) {
    && All(params, IsParam) && IsFinal(final)
    && exists between ::
      && All(between, IsIntermediate)
      && s == [ESC, '['] + params + between + [final]
  }

  predicate EndsOsc(s: string) {
    || (|s| >= 3 && s[|s| - 1] == BEL)
    || (|s| >= 4 && s[|s| - 2..] == [ESC, '\\'])
  }

  /** `s` is an operating system command that ends at its first terminator. */
  ghost predicate IsOsc(s: string) {
    && [ESC, ']'] <= s && EndsOsc(s)
    && forall n :: 0 <= n < |s| ==> !EndsOsc(s[..n])
  }

  /** The first `n` characters of `text` read as `piece`. */
  ghost predicate Reads(text: string, piece: Piece, n: nat)
    requires text != "" && n <= |text|
  {
    if text[0] != ESC then piece == Typed(text[0]) && n == 1
    else if SomeCsi(text) then piece.Control? && IsCsi(text[..n], piece.params, piece.final)
    else if SomeOsc(text) then piece == Ignored && IsOsc(text[..n])
    else if |text| > 2 && text[1] in "()*+-./" then piece == Ignored && n == 3
    else piece == Ignored && n == if |text| > 1 then 2 else 1
  }

  ghost predicate SomeCsi(text: string) {
    exists n: nat, params, final :: n <= |text| && IsCsi(text[..n], params, final)
  }

  ghost predicate SomeOsc(text: string) {
    exists n: nat :: n <= |text| && IsOsc(text[..n])
  }

  // ----- the scan

  /** Where a run of characters of one class ends. */
  function RunEnd(text: string, i: nat, class_: char -> bool): (j: nat)
    requires i <= |text|
    ensures i <= j <= |text|
    ensures All(text[i..j], class_) && (j < |text| ==> !class_(text[j]))
    decreases |text| - i
  {
    if i < |text| && class_(text[i]) then
      var j := RunEnd(text, i + 1, class_);
      assert text[i..j] == [text[i]] + text[i + 1..j];
      j
    else i
  }

  function FindCsi(text: string): Option<(Piece, nat)> {
    if |text| < 2 || text[0] != ESC || text[1] != '[' then None
    else
      var j := RunEnd(text, 2, IsParam);
      var k := RunEnd(text, j, IsIntermediate);
      if k < |text| && IsFinal(text[k]) then Some((Control(text[2..j], text[k]), k + 1)) else None
  }

  /** The length of the shortest prefix no shorter than `n` that ends a command. */
  function FindOscEnd(text: string, n: nat): Option<nat>
    requires n <= |text|
    decreases |text| - n
  {
    if EndsOsc(text[..n]) then Some(n)
    else if n == |text| then None
    else FindOscEnd(text, n + 1)
  }

  function FindOsc(text: string): Option<nat> {
    if [ESC, ']'] <= text then FindOscEnd(text, 0) else None
  }

  function NextPiece(text: string): (r: (Piece, nat))
    requires text != ""
    ensures 0 < r.1 <= |text|
    ensures r.0.Typed? <==> text[0] != ESC
  {
    if text[0] != ESC then (Typed(text[0]), 1)
    else if FindCsi(text).Some? then FindCsi(text).value
    else if FindOsc(text).Some? then
      FindOscEndFound(text, 0);
      (Ignored, FindOsc(text).value)
    else if |text| > 2 && text[1] in "()*+-./" then (Ignored, 3)
    else if |text| > 1 then (Ignored, 2)
    else (Ignored, 1)
  }

  // ----- the scan finds the match

  lemma {:induction false} FindOscEndFound(text: string, n: nat)
    requires n <= |text|
    ensures FindOscEnd(text, n).Some? ==>
      && n <= FindOscEnd(text, n).value <= |text|
      && EndsOsc(text[..FindOscEnd(text, n).value])
      && forall m :: n <= m < FindOscEnd(text, n).value ==> !EndsOsc(text[..m])
    ensures FindOscEnd(text, n).None? ==> forall m :: n <= m <= |text| ==> !EndsOsc(text[..m])
    decreases |text| - n
  {
    hide EndsOsc;
    if !EndsOsc(text[..n]) && n < |text| {
      FindOscEndFound(text, n + 1);
    }
  }

  lemma FindOscExact(text: string, n: nat)
    requires n <= |text|
    ensures IsOsc(text[..n]) <==> FindOsc(text) == Some(n)
  {
    FindOscEndFound(text, 0);
    forall m | 0 <= m <= n ensures text[..n][..m] == text[..m] {
    }
    if [ESC, ']'] <= text && n >= 3 {
      assert [ESC, ']'] <= text[..n];
    }
  }

  /** A run of one class followed by a character outside it ends there. */
  lemma {:induction false} RunEndIs(text: string, i: nat, j: nat, class_: char -> bool)
    requires i <= j < |text| && All(text[i..j], class_) && !class_(text[j])
    ensures RunEnd(text, i, class_) == j
    decreases j - i
  {
    if i < j {
      assert text[i] == text[i..j][0];
      assert text[i + 1..j] == text[i..j][1..];
      RunEndIs(text, i + 1, j, class_);
    }
  }

  lemma ClassesApart(c: char)
    ensures IsIntermediate(c) || IsFinal(c) ==> !IsParam(c)
    ensures IsFinal(c) ==> !IsIntermediate(c)
  {
  }

  lemma CsiFound(text: string, n: nat, params: string, between: string, final: char)
    requires n <= |text| && All(params, IsParam) && IsFinal(final) && All(between, IsIntermediate)
    requires text[..n] == [ESC, '['] + params + between + [final]
    ensures FindCsi(text) == Some((Control(params, final), n))
  {
    hide IsParam, IsIntermediate, IsFinal, RunEnd;
    var j, k := 2 + |params|, n - 1;
    assert text[2..j] == text[..n][2..j] == params;
    assert text[j..k] == text[..n][j..k] == between;
    assert text[k] == text[..n][k] == final;
    assert text[0] == text[..n][0] && text[1] == text[..n][1];
    ClassesApart(final);
    if j < k {
      assert text[j] == between[0];
      ClassesApart(text[j]);
    }
    RunEndIs(text, 2, j, IsParam);
    RunEndIs(text, j, k, IsIntermediate);
  }

  lemma FindCsiSound(text: string)
    requires FindCsi(text).Some?
    ensures var (piece, n) := FindCsi(text).value;
      n <= |text| && piece.Control? && IsCsi(text[..n], piece.params, piece.final)
  {
    hide IsParam, IsIntermediate, IsFinal;
    var j := RunEnd(text, 2, IsParam);
    var k := RunEnd(text, j, IsIntermediate);
    assert text[..k + 1] == [ESC, '['] + text[2..j] + text[j..k] + [text[k]];
  }

  lemma FindCsiExact(text: string, n: nat, params: string, final: char)
    requires n <= |text|
    ensures IsCsi(text[..n], params, final) <==> FindCsi(text) == Some((Control(params, final), n))
  {
    hide FindCsi, All, IsFinal;
    if IsCsi(text[..n], params, final) {
      var between :| All(between, IsIntermediate) && text[..n] == [ESC, '['] + params + between + [final];
      CsiFound(text, n, params, between, final);
    }
    if FindCsi(text).Some? {
      FindCsiSound(text);
    }
  }

  lemma SomeCsiExact(text: string)
    ensures SomeCsi(text) <==> FindCsi(text).Some?
  {
    hide IsCsi, FindCsi;
    if SomeCsi(text) {
      var n: nat, params, final :| n <= |text| && IsCsi(text[..n], params, final);
      FindCsiExact(text, n, params, final);
    }
    if FindCsi(text).Some? {
      FindCsiSound(text);
      var (piece, n) := FindCsi(text).value;
      assert IsCsi(text[..n], piece.params, piece.final);
    }
  }

  lemma SomeOscExact(text: string)
    ensures SomeOsc(text) <==> FindOsc(text).Some?
  {
    hide IsOsc;
    if SomeOsc(text) {
      var n: nat :| n <= |text| && IsOsc(text[..n]);
      FindOscExact(text, n);
    }
    if FindOsc(text).Some? {
      FindOscEndFound(text, 0);
      FindOscExact(text, FindOsc(text).value);
    }
  }

  /** The next piece is the only one the three expressions, tried in turn, allow. */
  lemma NextPieceExact(text: string, piece: Piece, n: nat)
    requires text != "" && n <= |text|
    ensures Reads(text, piece, n) <==> NextPiece(text) == (piece, n)
  {
    hide IsCsi, IsOsc, FindCsi, FindOsc, SomeCsi, SomeOsc;
    SomeCsiExact(text);
    SomeOscExact(text);
    FindOscExact(text, n);
    if piece.Control? {
      FindCsiExact(text, n, piece.params, piece.final);
    }
    if FindCsi(text).Some? {
      FindCsiSound(text);
    }
  }
}
