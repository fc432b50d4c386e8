/**
 * The legend title that the BDT training script puts on its ROC and
 * score plots: fixed selection lines, an optional line naming the legacy
 * ParticleNet tagger, and a mass-cut line chosen by the `legacy` flag.
 */
module TrainBDT {
  import opened Strings

  const PtLine := "FatJet p$_T^{(0,1)}$ > 300 GeV"
  const XbbLine := "$T_{Xbb}^{0}$>0.8"
  const PNetLegacyLine := "PNet Legacy"
  const LegacyMassLine := "m$_{SD}$ or m$_{reg Legacy}$ > 50 GeV"
  const MassLine := "m$_{SD}$ or m$_{reg}$ > 50 GeV"

  /** The two lines every title starts with. */
  const Header := PtLine + "\n" + XbbLine

  /** The mass-cut line for the given `legacy` flag. */
  function MassCutLine(legacy: bool): string
  {
    if legacy then LegacyMassLine else MassLine
  }

  /** The title, built line by line as the script appends to it. */
  function LegTitle(legacy: bool, pnetXbbStr: string): (title: string)
    ensures |title| > |Header| && title[..|Header|] == Header
  {
    var title := Header;
    var title := if Contains(pnetXbbStr, "Legacy") then title + "\n" + PNetLegacyLine else title;
    title + "\n" + MassCutLine(legacy)
  }

  /** The lines the title is meant to consist of, independently of how it is concatenated. */
  ghost function TitleLines(legacy: bool, pnetXbbStr: string): seq<string>
  {
    [PtLine, XbbLine]
    + (if IsSubstring("Legacy", pnetXbbStr) then [PNetLegacyLine] else [])
    + [MassCutLine(legacy)]
  }

  /** Joining one more line in front puts it and a separator before the rest. */
  lemma JoinFront(line: string, rest: seq<string>)
    requires |rest| >= 1
    ensures Join("\n", [line] + rest) == line + "\n" + Join("\n", rest)
  {
    assert ([line] + rest)[1..] == rest;
  }

  /** Four lines joined by newlines. */
  lemma JoinFour(a: string, b: string, c: string, d: string)
    ensures Join("\n", [a, b, c, d]) == a + "\n" + b + "\n" + c + "\n" + d
  {
    JoinFront(c, [d]);
    JoinFront(b, [c, d]);
    JoinFront(a, [b, c, d]);
    assert [a, b, c, d] == [a] + [b, c, d];
  }

  /** Three lines joined by newlines. */
  lemma JoinThree(a: string, b: string, c: string)
    ensures Join("\n", [a, b, c]) == a + "\n" + b + "\n" + c
  {
    JoinFront(b, [c]);
    JoinFront(a, [b, c]);
    assert [a, b, c] == [a] + [b, c];
  }

  /** The title is its lines joined by newlines. */
  lemma LegTitleIsJoin(legacy: bool, pnetXbbStr: string)
    ensures LegTitle(legacy, pnetXbbStr) == Join("\n", TitleLines(legacy, pnetXbbStr))
  {
    var m := MassCutLine(legacy);
    if IsSubstring("Legacy", pnetXbbStr) {
      JoinFour(PtLine, XbbLine, PNetLegacyLine, m);
      assert TitleLines(legacy, pnetXbbStr) == [PtLine, XbbLine, PNetLegacyLine, m];
      assert LegTitle(legacy, pnetXbbStr) == Header + "\n" + PNetLegacyLine + "\n" + m;
    } else {
      JoinThree(PtLine, XbbLine, m);
      assert TitleLines(legacy, pnetXbbStr) == [PtLine, XbbLine, m];
      assert LegTitle(legacy, pnetXbbStr) == Header + "\n" + m;
    }
  }

  /** Splitting the title at its newlines gives exactly the intended lines. */
  lemma LegTitleLines(legacy: bool, pnetXbbStr: string)
    ensures Split(LegTitle(legacy, pnetXbbStr), '\n') == TitleLines(legacy, pnetXbbStr)
  {
    var lines := TitleLines(legacy, pnetXbbStr);
    var m := MassCutLine(legacy);
    LegTitleIsJoin(legacy, pnetXbbStr);
    assert '\n' !in PtLine && '\n' !in XbbLine && '\n' !in PNetLegacyLine && '\n' !in m;
    if IsSubstring("Legacy", pnetXbbStr) {
      assert lines == [PtLine, XbbLine, PNetLegacyLine, m];
    } else {
      assert lines == [PtLine, XbbLine, m];
    }
    SplitJoin(lines, '\n');
  }

  /** The "PNet Legacy" line is present if and only if the Xbb branch name contains "Legacy". */
  lemma PNetLegacyLineIff(legacy: bool, pnetXbbStr: string)
    ensures PNetLegacyLine in Split(LegTitle(legacy, pnetXbbStr), '\n') <==> IsSubstring("Legacy", pnetXbbStr)
  {
    LegTitleLines(legacy, pnetXbbStr);
    assert PNetLegacyLine != PtLine && PNetLegacyLine != XbbLine;
    assert PNetLegacyLine != LegacyMassLine && PNetLegacyLine != MassLine;
  }

  /**
   * The last line is the mass cut chosen by `legacy`, and the other mass-cut
   * line does not occur at all: exactly one of the two appears.
   */
  lemma MassLineExactlyOne(legacy: bool, pnetXbbStr: string)
    ensures var lines := Split(LegTitle(legacy, pnetXbbStr), '\n');
      && lines[|lines| - 1] == MassCutLine(legacy)
      && MassCutLine(!legacy) !in lines
  {
    LegTitleLines(legacy, pnetXbbStr);
    assert MassLine != LegacyMassLine;
    assert MassLine != PtLine && MassLine != XbbLine && MassLine != PNetLegacyLine;
    assert LegacyMassLine != PtLine && LegacyMassLine != XbbLine && LegacyMassLine != PNetLegacyLine;
  }

  /**
   * Three lines without the "PNet Legacy" line, four with it, and then it
   * stands right before the mass-cut line.
   */
  lemma LineCount(legacy: bool, pnetXbbStr: string)
    ensures var lines := Split(LegTitle(legacy, pnetXbbStr), '\n');
      && |lines| == (if IsSubstring("Legacy", pnetXbbStr) then 4 else 3)
      && lines[0] == PtLine && lines[1] == XbbLine
      && (IsSubstring("Legacy", pnetXbbStr) ==> lines[2] == PNetLegacyLine && lines[3] == MassCutLine(legacy))
  {
    LegTitleLines(legacy, pnetXbbStr);
  }

  /**
   * The two inputs act independently: the `legacy` flag alone adds no
   * "PNet Legacy" line, and the branch name alone does not change the mass-cut line.
   */
  lemma FlagsIndependent(pnetXbbStr: string)
    ensures !IsSubstring("Legacy", pnetXbbStr) ==>
      Split(LegTitle(true, pnetXbbStr), '\n') == [PtLine, XbbLine, LegacyMassLine]
    ensures IsSubstring("Legacy", pnetXbbStr) ==>
      Split(LegTitle(false, pnetXbbStr), '\n') == [PtLine, XbbLine, PNetLegacyLine, MassLine]
  {
    LegTitleLines(true, pnetXbbStr);
    LegTitleLines(false, pnetXbbStr);
  }
}
