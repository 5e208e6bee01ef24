// The line ending filter of libgit2/src/crlf.c: what it does to a file on the way into the
// repository (clean) and out of it (smudge), and when the first undoes the second.
module CrlfFilter {
  import opened Options
  import opened LineEndings

  // The value of an attribute.
  datatype Value = True | False | Unspecified | Text(s: string)

  datatype Action = Guess | Binary | AsText | Input | Crlf | Auto

  datatype Eol = Unset | EolLf | EolCrlf

  datatype AutoCrlf = AutoFalse | AutoTrue | AutoInput

  datatype SafeCrlf = SafeFalse | SafeFail | SafeWarn

  datatype Mode = Clean | Smudge

  // The three attributes, the configuration, the platform's line ending, and whether the
  // file in the index holds a carriage return.
  datatype Setting = Setting(crlf: Value, eol: Value, text: Value, auto: AutoCrlf, safe: SafeCrlf, allowUnsafe: bool,
                             native: Eol, crInIndex: bool)

  // crlf_attrs
  datatype Attrs = Attrs(action: Action, eol: Eol, auto: AutoCrlf, safe: SafeCrlf)

  function CheckCrlf(v: Value): Action {
    match v
    case True => AsText
    case False => Binary
    case Unspecified => Guess
    case Text(s) => if s == "input" then Input else if s == "auto" then Auto else Guess
  }

  function CheckEol(v: Value): Eol {
    match v
    case Text(s) => if s == "lf" then EolLf else if s == "crlf" then EolCrlf else Unset
    case _ => Unset
  }

  function InputAction(action: Action, eol: Eol): Action {
    if action == Binary then Binary
    else if eol == EolLf then Input
    else if eol == EolCrlf then Crlf
    else action
  }

  function ActionOf(c: Setting): Action {
    var text := CheckCrlf(c.text);
    InputAction(if text == Guess then CheckCrlf(c.crlf) else text, CheckEol(c.eol))
  }

  // crlf_check; None means that the filter is passed over.
  function Check(c: Setting, mode: Mode): Option<Attrs> {
    var action := ActionOf(c);
    var asks := action == Guess || ((action == Auto || action == AsText) && mode == Smudge);
    var auto := if asks then c.auto else AutoFalse;
    if action == Binary then None
    else if asks && action == Guess && auto == AutoFalse then None
    else if asks && auto == AutoInput && mode == Smudge then None
    else
      var safe := if mode == Smudge then SafeFalse else if c.allowUnsafe && c.safe == SafeFail then SafeWarn else c.safe;
      Some(Attrs(action, CheckEol(c.eol), auto, safe))
  }

  // line_ending: whether lines end in CRLF in the working directory.
  function EndsInCrLf(ca: Attrs, native: Eol): bool {
    if ca.action == Binary || ca.action == Input then false
    else if ca.action == Crlf then true
    else if ca.action == Guess && ca.auto == AutoFalse then false
    else if ca.auto == AutoTrue then true
    else if ca.auto == AutoInput then false
    else if ca.eol == Unset then native == EolCrlf
    else ca.eol == EolCrlf
  }

  // A filter either has a text to give or refuses. Passing a text through gives it as it is.
  datatype Outcome = Content(text: string) | Refused

  function ToOdb(ca: Attrs, from: string, crInIndex: bool): Outcome {
    if from == [] then Content([])
    else if ca.action != Auto && ca.action != Guess then Content(ToLf(from))
    else
      var st := Gathered(from);
      if LineEndings.Binary(st) || st.cr == 0 then Content(from)
      else if (st.cr != st.crlf || st.lf != st.crlf) && ca.safe == SafeFail then Refused
      else if st.cr != st.crlf then Content(from)
      else if ca.action == Guess && crInIndex then Content(from)
      else Content(ToLf(from))
  }

  // crlf_apply_to_odb
  method ApplyToOdb(ca: Attrs, from: string, crInIndex: bool) returns (r: Outcome)
    ensures r == ToOdb(ca, from, crInIndex)
  {
    if |from| == 0 {
      return Content([]);
    }
    if ca.action == Auto || ca.action == Guess {
      var stats, binary := GatherStats(from);
      if binary {
        return Content(from);
      }
      if stats.cr == 0 {
        return Content(from);
      }
      if stats.cr != stats.crlf || stats.lf != stats.crlf {
        if ca.safe == SafeFail {
          return Refused;
        }
      }
      if stats.cr != stats.crlf {
        return Content(from);
      }
      if ca.action == Guess {
        if crInIndex {
          return Content(from);
        }
      }
    }
    var to := CrLfToLf(from);
    return Content(to);
  }

  function ToWorkdir(ca: Attrs, from: string, native: Eol): string {
    if from == [] || !EndsInCrLf(ca, native) then from
    else
      var st := Gathered(from);
      if st.lf == 0 || st.lf == st.crlf then from
      else if (ca.action == Auto || ca.action == Guess)
        && ((ca.action == Guess && st.cr > 0 && st.crlf > 0) || st.cr != st.crlf || LineEndings.Binary(st)) then from
      else ToCrLf(from)
  }

  // crlf_apply_to_workdir
  method ApplyToWorkdir(ca: Attrs, from: string, native: Eol) returns (r: string)
    ensures r == ToWorkdir(ca, from, native)
  {
    if |from| == 0 {
      return [];
    }
    if !EndsInCrLf(ca, native) {
      return from;
    }
    var stats, binary := GatherStats(from);
    if stats.lf == 0 || stats.lf == stats.crlf {
      return from;
    }
    if ca.action == Auto || ca.action == Guess {
      if ca.action == Guess && stats.cr > 0 && stats.crlf > 0 {
        return from;
      }
      if stats.cr != stats.crlf {
        return from;
      }
      if binary {
        return from;
      }
    }
    r := LfToCrLf(from);
  }

  function Smudged(c: Setting, blob: string): string {
    match Check(c, Smudge)
    case None => blob
    case Some(ca) => ToWorkdir(ca, blob, c.native)
  }

  function Cleaned(c: Setting, file: string): Outcome {
    match Check(c, Clean)
    case None => Content(file)
    case Some(ca) => ToOdb(ca, file, c.crInIndex)
  }

  // ---- when a blob survives a check-out and a check-in

  predicate Fails(c: Setting) {
    c.safe == SafeFail && !c.allowUnsafe
  }

  // The condition on the blob, by action. For a text that is converted without looking at
  // it, it must hold no CRLF. Otherwise it is left alone if it is binary or has no carriage
  // return; what else is left alone depends on how strict the check is and on the index.
  predicate Survives(c: Setting, blob: string) {
    var st := Gathered(blob);
    var binary := LineEndings.Binary(st);
    var lax := binary || st.cr == 0 || (st.cr != st.crlf && !Fails(c));
    match ActionOf(c)
    case Binary => true
    case AsText => st.crlf == 0
    case Input => st.crlf == 0
    case Crlf => st.crlf == 0
    case Auto => lax
    case Guess =>
      c.auto == AutoFalse
      || (if c.auto == AutoTrue && st.lf > 0 && st.cr == 0 && !binary then !c.crInIndex
          else lax || (c.crInIndex && !(Fails(c) && st.lf != st.crlf) && st.cr == st.crlf))
  }

  lemma StatsOfCrLf(s: string)
    ensures var a, b := Gathered(s), Gathered(ToCrLf(s));
      && b.lf == a.lf == b.crlf && b.cr == a.cr - a.crlf + a.lf
      && LineEndings.Binary(b) == LineEndings.Binary(a)
  {
    BodyOfCrLf(s);
    CountOfCrLf(Body(s));
  }

  lemma CrLfCount(s: string)
    ensures Gathered(s).crlf > 0 <==> HasCrLf(s)
    ensures Gathered(s).crlf <= Gathered(s).cr && Gathered(s).crlf <= Gathered(s).lf
    ensures Gathered(s).crlf == 0 <==> ToLf(s) == s
  {
    CountCrLf(Body(s));
    BodyHasCrLf(s);
    ToLfSame(s);
  }

  // A blob is given back by clean after smudge exactly if it survives.
  lemma SurvivesIff(c: Setting, blob: string)
    ensures Cleaned(c, Smudged(c, blob)) == Content(blob) <==> Survives(c, blob)
  {
    hide Gathered, ToLf, ToCrLf, LineEndings.Binary;
    CrLfCount(blob);
    StatsOfCrLf(blob);
    ToLfOfCrLf(blob);
    NothingToConvert(blob);
    hide ActionOf;
  }

  lemma NothingToConvert(blob: string)
    ensures ToCrLf(blob) == [] <==> blob == []
    ensures blob == [] ==> Gathered(blob) == Stats(0, 0, 0, 0, 0, 0) && ToLf(blob) == []
  {
    FirstOfCrLf(blob);
  }

  // In particular, a blob without carriage returns survives, whatever the attributes say,
  // if it is the one in the index.
  lemma PlainSurvives(c: Setting, blob: string)
    requires '\r' !in blob && !c.crInIndex
    ensures Cleaned(c, Smudged(c, blob)) == Content(blob)
  {
    SurvivesIff(c, blob);
    NoReturns(Body(blob));
    CrLfCount(blob);
  }

  lemma {:induction false} NoReturns(s: string)
    requires '\r' !in s
    ensures Count(s).cr == 0
  {
    if s != [] {
      NoReturns(s[1..]);
    }
  }
}
