/**
 * CommentStripper: drops comment tokens from PHP source, then drops blank
 * lines and trailing white space. The tokenizer (`token_get_all`) is not
 * part of this model: its output is the input here, as a sequence of
 * tokens that are either tagged with a kind (array tokens) or bare
 * single strings.
 */
module CommentStripper {

  import Text

  datatype TokenKind = Comment | DocComment | StartHeredoc | EndHeredoc | OtherKind

  /** An array token `[kind, text]`, or a bare string token. */
  datatype Token = Tagged(kind: TokenKind, text: string) | Bare(text: string)

  /** What one token adds to the output, given whether a `/* … */` region is open. */
  function Emit(t: Token, inComment: bool): string {
    match t
    case Tagged(kind, text) =>
      if kind == Comment || kind == DocComment then ""
      else if kind == StartHeredoc || kind == EndHeredoc then text
      else if inComment then "" else text
    case Bare(text) =>
      if text == "/*" then ""
      else if text == "*/" && inComment then ""
      else if inComment then "" else text
  }

  /** Whether a `/* … */` region is open after the token. */
  function NextFlag(t: Token, inComment: bool): bool {
    match t
    case Tagged(_, _) => inComment
    case Bare(text) =>
      if text == "/*" then true
      else if text == "*/" && inComment then false
      else inComment
  }

  /** The text the token loop produces from `ts`, starting with the flag `inComment`. */
  function Strip(ts: seq<Token>, inComment: bool): string
    decreases |ts|
  {
    if |ts| == 0 then "" else Emit(ts[0], inComment) + Strip(ts[1..], NextFlag(ts[0], inComment))
  }

  /** The flag after the whole of `ts`. */
  function FlagAfter(ts: seq<Token>, inComment: bool): bool
    decreases |ts|
  {
    if |ts| == 0 then inComment else FlagAfter(ts[1..], NextFlag(ts[0], inComment))
  }

  /** The loop over `[t] + us` handles `t`, then goes on over `us` with the flag `t` leaves behind. */
  lemma StripCons(t: Token, us: seq<Token>, inComment: bool)
    ensures Strip([t] + us, inComment) == Emit(t, inComment) + Strip(us, NextFlag(t, inComment))
  {
    assert ([t] + us)[1..] == us;
  }

  /** One step of the loop from position `i`. */
  lemma StripAt(ts: seq<Token>, i: nat, inComment: bool)
    requires i < |ts|
    ensures Strip(ts[i..], inComment) == Emit(ts[i], inComment) + Strip(ts[i + 1..], NextFlag(ts[i], inComment))
  {
    assert ts[i..][1..] == ts[i + 1..];
  }

  /** The token loop of `removeCommentsAndEmptyLines`. */
  method RemoveComments(ts: seq<Token>) returns (output: string)
    ensures output == Strip(ts, false)
  {
    output := "";
    var inComment := false;
    var i := 0;
    while i < |ts|
      invariant 0 <= i <= |ts|
      invariant output + Strip(ts[i..], inComment) == Strip(ts, false)
    {
      var t := ts[i];
      ghost var before, flag := output, inComment;
      match t {
        case Tagged(kind, text) =>
          if kind == Comment || kind == DocComment {
          } else if kind == StartHeredoc || kind == EndHeredoc {
            output := output + text;
          } else if !inComment {
            output := output + text;
          }
        case Bare(text) =>
          if text == "/*" {
            inComment := true;
          } else if text == "*/" && inComment {
            inComment := false;
          } else if !inComment {
            output := output + text;
          }
      }
      assert output == before + Emit(t, flag) && inComment == NextFlag(t, flag);
      StripAt(ts, i, flag);
      Text.Regroup(before, Emit(t, flag), Strip(ts[i + 1..], inComment));
      i := i + 1;
    }
  }

  /** Running the loop over two pieces is running it over the first, then over the second from the flag left behind. */
  lemma {:induction false} StripAppend(ts: seq<Token>, us: seq<Token>, inComment: bool)
    ensures Strip(ts + us, inComment) == Strip(ts, inComment) + Strip(us, FlagAfter(ts, inComment))
    ensures FlagAfter(ts + us, inComment) == FlagAfter(us, FlagAfter(ts, inComment))
    decreases |ts|
  {
    if |ts| > 0 {
      assert (ts + us)[0] == ts[0];
      assert (ts + us)[1..] == ts[1..] + us;
      StripAppend(ts[1..], us, NextFlag(ts[0], inComment));
    } else {
      assert ts + us == us;
    }
  }

  predicate IsCommentToken(t: Token) {
    t.Tagged? && (t.kind == Comment || t.kind == DocComment)
  }

  /** Comment and doc-comment tokens contribute nothing: removing them first changes nothing. */
  lemma {:induction false} CommentsInvisible(ts: seq<Token>, inComment: bool)
    ensures Strip(Text.Filter(ts, (t: Token) => !IsCommentToken(t)), inComment) == Strip(ts, inComment)
    decreases |ts|
  {
    if |ts| > 0 {
      CommentsInvisible(ts[1..], NextFlag(ts[0], inComment));
    }
  }

  /** The texts of the heredoc start and end tokens of `ts`, in order. */
  function HeredocText(ts: seq<Token>): string
    decreases |ts|
  {
    if |ts| == 0 then ""
    else (if ts[0].Tagged? && (ts[0].kind == StartHeredoc || ts[0].kind == EndHeredoc) then ts[0].text else "")
         + HeredocText(ts[1..])
  }

  /** Inside a `/* … */` region that `ts` does not close, only heredoc delimiters are emitted. */
  lemma {:induction false} InsideCommentOnlyHeredoc(ts: seq<Token>)
    requires forall k :: 0 <= k < |ts| ==> ts[k] != Bare("*/")
    ensures Strip(ts, true) == HeredocText(ts)
    ensures FlagAfter(ts, true)
    decreases |ts|
  {
    if |ts| > 0 {
      assert NextFlag(ts[0], true);
      InsideCommentOnlyHeredoc(ts[1..]);
    }
  }

  /** A heredoc start or end token is copied verbatim wherever it occurs. */
  lemma HeredocCopied(ts: seq<Token>, h: Token, us: seq<Token>, inComment: bool)
    requires h.Tagged? && (h.kind == StartHeredoc || h.kind == EndHeredoc)
    ensures Strip(ts + [h] + us, inComment)
         == Strip(ts, inComment) + h.text + Strip(us, FlagAfter(ts, inComment))
  {
    StripAppend(ts, [h] + us, inComment);
    Text.Regroup(ts, [h], us);
    StripCons(h, us, FlagAfter(ts, inComment));
    Text.Regroup(Strip(ts, inComment), h.text, Strip(us, FlagAfter(ts, inComment)));
  }

  /** The delimiters `/*` and `*/` that open and close a region never reach the output. */
  lemma DelimitersDropped(ts: seq<Token>, inComment: bool)
    ensures Strip([Bare("/*")] + ts, inComment) == Strip(ts, true)
    ensures Strip([Bare("*/")] + ts, true) == Strip(ts, false)
  {
    StripCons(Bare("/*"), ts, inComment);
    StripCons(Bare("*/"), ts, true);
  }

  // ---- The line pass ----

  /** `trim($line) !== ''`. */
  predicate NotBlank(line: string) {
    Text.Trim(line) != ""
  }

  /** The kept lines: the non-blank lines of `output`, right-trimmed, in order. */
  function KeptLines(output: string): (r: seq<string>)
    ensures forall k :: 0 <= k < |r| ==> '\n' !in r[k]
  {
    var lines := Text.Filter(Text.Explode(output, '\n'), NotBlank);
    var r := Text.Map(lines, Text.RTrim);
    assert forall k :: 0 <= k < |r| ==> '\n' !in r[k] by {
      forall k | 0 <= k < |r| ensures '\n' !in r[k] {
        assert lines[k] in lines;
        assert r[k] == lines[k][..|r[k]|];
        assert forall c :: c in r[k] ==> c in lines[k];
      }
    }
    r
  }

  /** The split, filter, right-trim and join that follow the token loop. */
  function LinePass(output: string): (r: string)
    ensures |r| > 0 && r[|r| - 1] == '\n'
  {
    Text.Implode(KeptLines(output), '\n') + "\n"
  }

  /** A right-trimmed line that was not blank is still not blank, and ends in no white space. */
  lemma RTrimOfNotBlank(line: string)
    requires NotBlank(line)
    ensures Text.RTrim(line) != "" && !Text.IsTrimChar(Text.RTrim(line)[|Text.RTrim(line)| - 1])
  {
    assert line[0..] == line;
    Text.TrimEmptyIffBlank(line);
  }

  /** The kept line at `k` is the right-trimmed form of a non-blank source line. */
  lemma KeptLineSource(output: string, k: nat)
    requires k < |KeptLines(output)|
    ensures var lines := Text.Filter(Text.Explode(output, '\n'), NotBlank);
            k < |lines| && lines[k] in Text.Explode(output, '\n') && NotBlank(lines[k])
            && KeptLines(output)[k] == Text.RTrim(lines[k])
  {
    var lines := Text.Filter(Text.Explode(output, '\n'), NotBlank);
    assert KeptLines(output) == Text.Map(lines, Text.RTrim);
    assert lines[k] in lines;
  }

  /** Every kept line is non-blank, ends in no white space, and keeps its leading indentation. */
  lemma KeptLinesShape(output: string, k: nat)
    requires k < |KeptLines(output)|
    ensures var line := KeptLines(output)[k];
            line != "" && !Text.IsTrimChar(line[|line| - 1])
            && exists src :: src in Text.Explode(output, '\n') && NotBlank(src) && line == Text.RTrim(src)
  {
    KeptLineSource(output, k);
    var line := Text.Filter(Text.Explode(output, '\n'), NotBlank)[k];
    RTrimOfNotBlank(line);
  }

  /** The kept lines come from source lines in their original order. */
  lemma KeptLinesInOrder(output: string)
    ensures var src := Text.Explode(output, '\n');
            var kept := KeptLines(output);
            exists idx: seq<nat> :: |idx| == |kept|
              && (forall k :: 0 <= k < |idx| ==> idx[k] < |src| && kept[k] == Text.RTrim(src[idx[k]]))
              && (forall k, l :: 0 <= k < l < |idx| ==> idx[k] < idx[l])
  {
    var src := Text.Explode(output, '\n');
    var lines := Text.Filter(src, NotBlank);
    Text.FilterEmbeds(src, NotBlank);
    var idx :| Text.IsEmbedding(idx, lines, src);
    var kept := KeptLines(output);
    assert forall k :: 0 <= k < |idx| ==> idx[k] < |src| && kept[k] == Text.RTrim(src[idx[k]]);
  }

  /** The lines of the result are exactly the kept lines (when there are any). */
  lemma LinePassLines(output: string)
    requires |KeptLines(output)| > 0
    ensures var r := LinePass(output);
            Text.Explode(r[..|r| - 1], '\n') == KeptLines(output)
  {
    var r := LinePass(output);
    assert r[..|r| - 1] == Text.Implode(KeptLines(output), '\n');
    Text.ExplodeImplode(KeptLines(output), '\n');
  }

  /** With nothing left, the result is a single line break. */
  lemma LinePassEmpty(output: string)
    requires |KeptLines(output)| == 0
    ensures LinePass(output) == "\n"
  {
  }

  /** `cleanFile($content)`: the token loop followed by the line pass; it never yields null. */
  method CleanFile(ts: seq<Token>) returns (cleaned: string)
    ensures cleaned == LinePass(Strip(ts, false))
    ensures |cleaned| > 0 && cleaned[|cleaned| - 1] == '\n'
  {
    var output := RemoveComments(ts);
    cleaned := Text.Implode(KeptLines(output), '\n') + "\n";
  }
}
