// The two character-by-character normalisers of encode/encode.cc:
// simplifyText (case and punctuation folding) and removeSpaces (space-run
// folding). Each keeps a few flags, appends to an output string and to a side
// bit string.

module Normalise {
  import opened Types

  predicate IsUpper(c: char)
  {
    'A' <= c <= 'Z'
  }

  predicate IsLower(c: char)
  {
    'a' <= c <= 'z'
  }

  function ToLower(c: char): char
    requires IsUpper(c)
  {
    (c as int - 'A' as int + 'a' as int) as char
  }

  function ToUpper(c: char): char
    requires IsLower(c)
  {
    (c as int - 'a' as int + 'A' as int) as char
  }

  // ------------------------------------------------------------ simplifyText

  /** What simplifyText makes of one character: the output character, the
      bits it appends, and the new value of the lastPeriod flag (true while
      no letter has been seen since the last kept period). */
  datatype CharCode = CharCode(out: char, bits: string, lastPeriod: bool)

  function SimplifyChar(c: char, lastPeriod: bool): CharCode
  {
    var lp := if IsUpper(c) || IsLower(c) then false else lastPeriod;
    if c == ',' then CharCode(' ', "10", lp)
    else if IsUpper(c) then CharCode(ToLower(c), "1", lp)
    else if c == '.' then
      if !lp then CharCode('.', "0", true) else CharCode(' ', "11", lp)
    else CharCode(c, "0", lp)
  }

  datatype Simplified = Simplified(text: string, bits: string)

  /** simplifyText on text, starting with the given lastPeriod flag. The
      output has one character per input character, none of them an upper
      case letter or a comma. */
  function SimplifyFrom(text: string, lastPeriod: bool): (r: Simplified)
    ensures |r.text| == |text|
    ensures forall i :: 0 <= i < |r.text| ==> !IsUpper(r.text[i]) && r.text[i] != ','
  {
    if text == [] then Simplified("", "")
    else
      var cc := SimplifyChar(text[0], lastPeriod);
      var rest := SimplifyFrom(text[1..], cc.lastPeriod);
      Simplified([cc.out] + rest.text, cc.bits + rest.bits)
  }

  /** simplifyText (encode/encode.cc:332-384). */
  method SimplifyText(text: string) returns (simplified: string, bitVector: string)
    ensures Simplified(simplified, bitVector) == SimplifyFrom(text, true)
  {
    simplified, bitVector := "", "";
    var lastPeriod := true;
    var i := 0;
    while i < |text|
      invariant 0 <= i <= |text|
      invariant var rest := SimplifyFrom(text[i..], lastPeriod);
        Simplified(simplified + rest.text, bitVector + rest.bits) == SimplifyFrom(text, true)
    {
      SimplifyStep(text, i, simplified, bitVector, lastPeriod);
      var out, bits;
      out, bits, lastPeriod := SimplifyOne(text[i], lastPeriod);
      simplified := simplified + [out];
      bitVector := bitVector + bits;
      i := i + 1;
    }
  }

  /** The body of the simplifyText loop for one character c: the character
      written, the bits appended and the new lastPeriod flag. */
  method SimplifyOne(c: char, lastPeriod: bool) returns (out: char, bits: string, lastPeriod': bool)
    ensures CharCode(out, bits, lastPeriod') == SimplifyChar(c, lastPeriod)
  {
    lastPeriod' := lastPeriod;
    if (('A' <= c <= 'Z') || ('a' <= c <= 'z')) && lastPeriod' {
      lastPeriod' := false;
    }
    if c == ',' {
      bits, out := "10", ' ';
    } else if 'A' <= c <= 'Z' {
      bits, out := "1", (c as int - 'A' as int + 'a' as int) as char;
    } else if c == '.' {
      if !lastPeriod' {
        lastPeriod' := true;
        bits, out := "0", c;
      } else {
        bits, out := "11", ' ';
      }
    } else {
      bits, out := "0", c;
    }
  }

  lemma SimplifyStep(text: string, i: nat, s: string, b: string, lastPeriod: bool)
    requires i < |text|
    ensures var cc := SimplifyChar(text[i], lastPeriod);
      var rest := SimplifyFrom(text[i + 1..], cc.lastPeriod);
      var all := SimplifyFrom(text[i..], lastPeriod);
      s + all.text == (s + [cc.out]) + rest.text && b + all.bits == (b + cc.bits) + rest.bits
  {
    assert text[i..][1..] == text[i + 1..];
  }

  function Cons(c: char, r: Option<string>): Option<string>
  {
    if r.None? then None else Some([c] + r.value)
  }

  /** Reads the original text back from the simplified text and its bits:
      a '0' keeps the character; a '1' under a letter makes it upper case;
      "10" and "11" under a space restore a comma and a period. */
  function Restore(simplified: string, bits: string): Option<string>
    decreases |simplified|
  {
    if simplified == [] then (if bits == [] then Some([]) else None)
    else if bits == [] then None
    else
      var o := simplified[0];
      if bits[0] == '0' then Cons(o, Restore(simplified[1..], bits[1..]))
      else if IsLower(o) then Cons(ToUpper(o), Restore(simplified[1..], bits[1..]))
      else if o == ' ' && |bits| >= 2 then
        Cons(if bits[1] == '0' then ',' else '.', Restore(simplified[1..], bits[2..]))
      else None
  }

  /** Simplification loses nothing: the bits together with the simplified
      text determine the original text. */
  lemma {:induction false} SimplifyRoundTrip(text: string, lastPeriod: bool)
    ensures var r := SimplifyFrom(text, lastPeriod); Restore(r.text, r.bits) == Some(text)
  {
    if text != [] {
      var c := text[0];
      var cc := SimplifyChar(c, lastPeriod);
      var rest := SimplifyFrom(text[1..], cc.lastPeriod);
      SimplifyRoundTrip(text[1..], cc.lastPeriod);
      assert SimplifyFrom(text, lastPeriod) == Simplified([cc.out] + rest.text, cc.bits + rest.bits);
      RestoreChar(c, lastPeriod, rest.text, rest.bits);
      assert [c] + text[1..] == text;
    }
  }

  /** One simplified character and its bits read back to the character. */
  lemma RestoreChar(c: char, lastPeriod: bool, rt: string, rb: string)
    ensures var cc := SimplifyChar(c, lastPeriod);
      Restore([cc.out] + rt, cc.bits + rb) == Cons(c, Restore(rt, rb))
  {
    var cc := SimplifyChar(c, lastPeriod);
    var t, b := [cc.out] + rt, cc.bits + rb;
    assert t[0] == cc.out && t[1..] == rt;
    if |cc.bits| == 1 {
      assert b[0] == cc.bits[0] && b[1..] == rb;
    } else {
      assert b[0] == cc.bits[0] && b[1] == cc.bits[1] && b[2..] == rb;
    }
  }

  // ------------------------------------------------------------ removeSpaces

  /** The flags and outputs of removeSpaces between two characters. */
  datatype SpaceState = SpaceState(
    space: bool,        // the last character read was a space
    numSpaces: nat,     // spaces in the current run
    period: bool,       // the last character written was a period, or none was
    newLine: bool,      // the last character read was a newline
    out: string,
    bits: string)

  const SpaceStart: SpaceState := SpaceState(false, 0, true, false, "", "")

  /** One character of removeSpaces. */
  function SpaceStep(codec: Codec, st: SpaceState, c: char): SpaceState
  {
    if c == '\n' && !st.newLine then st.(newLine := true)
    else
      var st := if c != '\n' && st.newLine then st.(newLine := false) else st;
      if c != ' ' && !st.space then
        var st := if st.period then st.(bits := st.bits + codec.binary(st.numSpaces + 1, false), numSpaces := 0) else st;
        var st := st.(out := st.out + [c]);
        if c == '.' then st.(bits := st.bits + codec.binary(1, false), period := true)
        else st.(period := false)
      else if c != ' ' && st.space then
        st.(space := false,
            out := if c == '.' || st.period then st.out + [c] else st.out + [' ', c],
            period := c == '.',
            bits := st.bits + codec.binary(st.numSpaces + 1, false),
            numSpaces := 0)
      else
        st.(space := true, numSpaces := st.numSpaces + 1)
  }

  function SpaceRun(codec: Codec, st: SpaceState, text: string): SpaceState
    decreases |text|
  {
    if text == [] then st else SpaceRun(codec, SpaceStep(codec, st, text[0]), text[1..])
  }

  /** The trailing-space count and the all-spaces marker. */
  function SpaceFinish(codec: Codec, st: SpaceState): (string, string)
  {
    var bits := st.bits + (if st.space then codec.binary(st.numSpaces + 1, false) else codec.binary(1, false));
    (st.out, if st.out == "" then bits + codec.binary(1, false) else bits)
  }

  function RemovedSpaces(codec: Codec, text: string): (string, string)
  {
    SpaceFinish(codec, SpaceRun(codec, SpaceStart, text))
  }

  /** removeSpaces (encode/encode.cc:390-468). */
  method RemoveSpaces(codec: Codec, text: string) returns (simplified: string, bits: string)
    ensures (simplified, bits) == RemovedSpaces(codec, text)
  {
    bits := "";
    var out := "";
    var space := false;
    var numSpaces: nat := 0;
    var period := true;
    var newLine := false;
    var i := 0;
    while i < |text|
      invariant 0 <= i <= |text|
      invariant SpaceRun(codec, SpaceState(space, numSpaces, period, newLine, out, bits), text[i..])
        == SpaceRun(codec, SpaceStart, text)
    {
      var c := text[i];
      assert text[i..][1..] == text[i + 1..];
      i := i + 1;
      if c == '\n' && !newLine {
        newLine := true;
        continue;
      } else if c != '\n' && newLine {
        newLine := false;
      }
      if c != ' ' && !space {
        if period {
          bits := bits + codec.binary(numSpaces + 1, false);
          numSpaces := 0;
        }
        out := out + [c];
        if c == '.' {
          bits := bits + codec.binary(1, false);
          period := true;
        } else {
          period := false;
        }
      } else if c != ' ' && space {
        space := false;
        if c == '.' || period {
          out := out + [c];
        } else {
          out := out + [' ', c];
        }
        if c != '.' {
          period := false;
        } else {
          period := true;
        }
        bits := bits + codec.binary(numSpaces + 1, false);
        numSpaces := 0;
      } else {
        space := true;
        numSpaces := numSpaces + 1;
      }
    }
    if space {
      bits := bits + codec.binary(numSpaces + 1, false);
    } else {
      bits := bits + codec.binary(1, false);
    }
    simplified := out;
    if simplified == "" {
      bits := bits + codec.binary(1, false);
    }
  }

  /** Every space is single and lies between two characters that are
      neither spaces nor periods. */
  predicate SpacesOk(s: string)
  {
    forall i :: 0 <= i < |s| && s[i] == ' ' ==>
      0 < i < |s| - 1 && s[i - 1] != ' ' && s[i - 1] != '.' && s[i + 1] != ' ' && s[i + 1] != '.'
  }

  /** What removeSpaces keeps true between characters: the output so far is
      tidy, does not end in a space, and the period flag says whether it is
      empty or ends in a period. */
  predicate Tidy(st: SpaceState)
  {
    && SpacesOk(st.out)
    && (st.out == [] || st.out[|st.out| - 1] != ' ')
    && (st.period <==> (st.out == [] || st.out[|st.out| - 1] == '.'))
  }

  lemma StepTidy(codec: Codec, st: SpaceState, c: char)
    requires Tidy(st)
    ensures Tidy(SpaceStep(codec, st, c))
  {
    var st' := SpaceStep(codec, st, c);
    if st'.out != st.out {
      assert st'.out == st.out + [c] || st'.out == st.out + [' ', c];
      forall i | 0 <= i < |st'.out| && st'.out[i] == ' '
        ensures 0 < i < |st'.out| - 1 && st'.out[i - 1] != ' ' && st'.out[i - 1] != '.'
          && st'.out[i + 1] != ' ' && st'.out[i + 1] != '.'
      {
        if i < |st.out| {
          assert st'.out[i] == st.out[i] && st'.out[i + 1] == (st.out + [st'.out[|st.out|]])[i + 1];
        }
      }
    }
  }

  lemma {:induction false} RunTidy(codec: Codec, st: SpaceState, text: string)
    requires Tidy(st)
    ensures Tidy(SpaceRun(codec, st, text))
    decreases |text|
  {
    if text != [] {
      StepTidy(codec, st, text[0]);
      RunTidy(codec, SpaceStep(codec, st, text[0]), text[1..]);
    }
  }

  /** The output of removeSpaces has no runs of spaces, no space at either
      end and no space next to a period. */
  lemma RemoveSpacesTidy(codec: Codec, text: string)
    ensures SpacesOk(RemovedSpaces(codec, text).0)
  {
    RunTidy(codec, SpaceStart, text);
  }

  /** The text without spaces. */
  function NonSpace(s: string): string
  {
    if s == [] then [] else (if s[0] == ' ' then [] else [s[0]]) + NonSpace(s[1..])
  }

  lemma {:induction false} NonSpaceAppend(a: string, b: string)
    ensures NonSpace(a + b) == NonSpace(a) + NonSpace(b)
  {
    if a != [] {
      assert (a + b)[1..] == a[1..] + b;
      NonSpaceAppend(a[1..], b);
    } else {
      assert a + b == b;
    }
  }

  /** The text with the first newline of every run of newlines dropped,
      which removeSpaces skips without writing. */
  function Kept(text: string, newLine: bool): string
  {
    if text == [] then []
    else if text[0] == '\n' && !newLine then Kept(text[1..], true)
    else [text[0]] + Kept(text[1..], text[0] == '\n')
  }

  /** One step that does not skip a newline writes nothing but spaces and
      the character it read. */
  lemma StepKeeps(codec: Codec, st: SpaceState, c: char)
    requires !(c == '\n' && !st.newLine)
    ensures NonSpace(SpaceStep(codec, st, c).out) == NonSpace(st.out) + NonSpace([c])
    ensures SpaceStep(codec, st, c).newLine == (c == '\n')
  {
    var out' := SpaceStep(codec, st, c).out;
    if c == ' ' {
      assert out' == st.out;
      NonSpaceAppend(st.out, []);
      assert st.out + [] == st.out;
    } else {
      var added := out'[|st.out|..];
      assert added == [c] || added == [' ', c];
      assert out' == st.out + added;
      NonSpaceAppend(st.out, added);
      if added == [' ', c] {
        assert added[1..] == [c];
      }
    }
  }

  lemma {:induction false} RunKeeps(codec: Codec, st: SpaceState, text: string)
    ensures NonSpace(SpaceRun(codec, st, text).out) == NonSpace(st.out) + NonSpace(Kept(text, st.newLine))
    decreases |text|
  {
    if text == [] {
      assert NonSpace(Kept(text, st.newLine)) == [];
    } else {
      var c := text[0];
      var st' := SpaceStep(codec, st, c);
      var tail := SpaceRun(codec, st', text[1..]);
      assert SpaceRun(codec, st, text) == tail;
      RunKeeps(codec, st', text[1..]);
      var k := Kept(text[1..], st'.newLine);
      if c == '\n' && !st.newLine {
        assert st'.out == st.out && st'.newLine;
        assert Kept(text, st.newLine) == k;
      } else {
        StepKeeps(codec, st, c);
        assert Kept(text, st.newLine) == [c] + k;
        KeepsJoin(st.out, st'.out, c, k);
      }
    }
  }

  lemma KeepsJoin(out: string, out': string, c: char, k: string)
    requires NonSpace(out') == NonSpace(out) + NonSpace([c])
    ensures NonSpace(out') + NonSpace(k) == NonSpace(out) + NonSpace([c] + k)
  {
    NonSpaceAppend([c], k);
  }

  /** removeSpaces changes only spaces: the other characters come out in
      order, apart from the skipped newlines. */
  lemma RemoveSpacesKeeps(codec: Codec, text: string)
    ensures NonSpace(RemovedSpaces(codec, text).0) == NonSpace(Kept(text, false))
  {
    RunKeeps(codec, SpaceStart, text);
  }
}
