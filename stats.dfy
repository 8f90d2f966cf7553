/**
 * dump.stats_US: the lines of the lang/stats_US.lang file, each "category.name=description",
 * gathered into a dictionary of stat names and one of achievement names and descriptions.
 */
module Stats {
  import opened Wrappers
  import opened Text

  /** ret = dict(stat={}, achievement={}): stat name to text, achievement name to a dict of "name"/"desc". */
  datatype Lang = Lang(stat: map<string, string>, achievement: map<string, map<string, string>>)

  const Empty := Lang(map[], map[])

  /** What one line of the file is to the loop body. */
  datatype Line =
    | Blank                                        // empty once stripped: skipped
    | Malformed                                    // no "=", or no "." before it: the unpacking raises ValueError
    | Stat(name: string, desc: string)             // "stat.NAME=D"
    | AchievementDesc(name: string, desc: string)  // "achievement.NAME.desc=D", NAME without ".desc"
    | AchievementName(name: string, desc: string)  // "achievement.NAME=D", NAME not ending in ".desc"
    | Ignored                                      // any other category

  /** The line read as the loop body reads it: stripped, split at the first "=", the key at its first ".". */
  function Classify(raw: string): Line
  {
    var line := Strip(raw);
    if line == "" then Blank
    else match SplitOnce(line, '=')
      case None => Malformed
      case Some((tag, desc)) =>
        match SplitOnce(tag, '.')
        case None => Malformed
        case Some((category, name)) =>
          if category == "stat" then Stat(name, desc)
          else if category == "achievement" then
            if EndsWith(name, ".desc") then AchievementDesc(name[..|name| - 5], desc) else AchievementName(name, desc)
          else Ignored
  }

  /** The achievement entry for name, or the {} it starts as. */
  function EntryOf(st: Lang, name: string): map<string, string>
  {
    if name in st.achievement then st.achievement[name] else map[]
  }

  /** The dictionaries after one well-formed line. */
  function Apply(st: Lang, l: Line): Lang
  {
    match l
    case Stat(n, d) => st.(stat := st.stat[n := d])
    case AchievementDesc(n, d) => st.(achievement := st.achievement[n := EntryOf(st, n)["desc" := d]])
    case AchievementName(n, d) => st.(achievement := st.achievement[n := EntryOf(st, n)["name" := d]])
    case _ => st
  }

  /** A line with both separators, read by Classify from its parts. */
  lemma ClassifyOf(raw: string, line: string, tag: string, desc: string, category: string, name: string)
    requires line == Strip(raw) && line != ""
    requires SplitOnce(line, '=') == Some((tag, desc)) && SplitOnce(tag, '.') == Some((category, name))
    ensures category == "stat" ==> Classify(raw) == Stat(name, desc)
    ensures category == "achievement" && EndsWith(name, ".desc") ==> Classify(raw) == AchievementDesc(name[..|name| - 5], desc)
    ensures category == "achievement" && !EndsWith(name, ".desc") ==> Classify(raw) == AchievementName(name, desc)
    ensures category != "stat" && category != "achievement" ==> Classify(raw) == Ignored
  {
  }

  /** The lines of the file, each read by Classify. */
  function Lines(raws: seq<string>): (ls: seq<Line>)
    ensures |ls| == |raws|
    decreases |raws|
  {
    if raws == [] then [] else [Classify(raws[0])] + Lines(raws[1..])
  }

  /** Line i of the file is read from raw line i. */
  lemma {:induction false} LinesAt(raws: seq<string>, i: int)
    requires 0 <= i < |raws|
    ensures Lines(raws)[i] == Classify(raws[i])
    decreases i
  {
    if i > 0 {
      LinesAt(raws[1..], i - 1);
    }
  }

  /** The loop over the lines, in order, from the dictionaries st; the first malformed line raises. */
  function ApplyLines(st: Lang, ls: seq<Line>): Result<Lang>
    decreases |ls|
  {
    if ls == [] then Ok(st)
    else if ls[0].Malformed? then Err(ValueError)
    else ApplyLines(Apply(st, ls[0]), ls[1..])
  }

  /** stats_US on the text of the language file, split at each newline. */
  function StatsOf(text: string): Result<Lang>
  {
    ApplyLines(Empty, Lines(Split(text, '\n')))
  }

  /** stats_US: the loop over the lines, updating the two dictionaries of ret in place. */
  method StatsUS(text: string) returns (r: Result<Lang>)
    ensures r == StatsOf(text)
  {
    var ret := Empty;
    var sf := Split(text, '\n');
    ghost var ls := Lines(sf);
    var i := 0;
    while i < |sf|
      invariant 0 <= i <= |sf|
      invariant StatsOf(text) == ApplyLines(ret, ls[i..])
    {
      ApplyLinesAt(ret, ls, i);
      var next := ReadLine(ret, sf, i);
      if next.Err? {
        return Err(next.error);
      }
      ret := next.value;
      i := i + 1;
    }
    return Ok(ret);
  }

  /** The achievement branch of the loop body: the entry for the name without ".desc", created as {} if new. */
  method AddAchievement(ret: Lang, name: string, desc: string) returns (st: Lang)
    ensures EndsWith(name, ".desc") ==> st == Apply(ret, AchievementDesc(name[..|name| - 5], desc))
    ensures !EndsWith(name, ".desc") ==> st == Apply(ret, AchievementName(name, desc))
  {
    st := ret;
    var realName := if EndsWith(name, ".desc") then name[..|name| - 5] else name;
    if realName !in st.achievement {
      st := st.(achievement := st.achievement[realName := map[]]);
    }
    if EndsWith(name, ".desc") {
      st := st.(achievement := st.achievement[realName := st.achievement[realName]["desc" := desc]]);
    } else {
      st := st.(achievement := st.achievement[name := st.achievement[name]["name" := desc]]);
    }
  }

  /** The body of the loop of stats_US for one line: ret after it, or the ValueError it raises. */
  method ReadLine(ret: Lang, sf: seq<string>, i: int) returns (r: Result<Lang>)
    requires 0 <= i < |sf|
    ensures Lines(sf)[i].Malformed? ==> r == Err(ValueError)
    ensures !Lines(sf)[i].Malformed? ==> r == Ok(Apply(ret, Lines(sf)[i]))
  {
    var raw := sf[i];
    LinesAt(sf, i);
    var line := Strip(raw);
    if line == "" {
      return Ok(ret);
    }
    var tagDesc := SplitOnce(line, '=');
    if tagDesc.None? {
      return Err(ValueError);
    }
    var (tag, desc) := tagDesc.value;
    var categoryName := SplitOnce(tag, '.');
    if categoryName.None? {
      return Err(ValueError);
    }
    var (category, name) := categoryName.value;
    ClassifyOf(raw, line, tag, desc, category, name);
    var st := ret;
    if category == "stat" {
      st := st.(stat := st.stat[name := desc]);
    } else if category == "achievement" {
      st := AddAchievement(st, name, desc);
    }
    return Ok(st);
  }


  /** One turn of the loop at line i: a malformed line raises, any other is applied. */
  lemma ApplyLinesAt(st: Lang, ls: seq<Line>, i: int)
    requires 0 <= i < |ls|
    ensures ls[i].Malformed? ==> ApplyLines(st, ls[i..]) == Err(ValueError)
    ensures !ls[i].Malformed? ==> ApplyLines(st, ls[i..]) == ApplyLines(Apply(st, ls[i]), ls[i + 1..])
  {
    assert ls[i..][0] == ls[i] && ls[i..][1..] == ls[i + 1..];
  }

  /** Reading two runs of lines one after the other is reading their concatenation. */
  lemma {:induction false} ApplyLinesAppend(st: Lang, a: seq<Line>, b: seq<Line>)
    ensures ApplyLines(st, a + b) ==
      match ApplyLines(st, a)
      case Ok(mid) => ApplyLines(mid, b)
      case Err(e) => Err(e)
    decreases |a|
  {
    if a != [] {
      assert (a + b)[0] == a[0] && (a + b)[1..] == a[1..] + b;
      if !a[0].Malformed? {
        ApplyLinesAppend(Apply(st, a[0]), a[1..], b);
      }
    } else {
      assert a + b == b;
    }
  }

  /** The first malformed line raises ValueError; without one the loop runs to the end. */
  lemma {:induction false} ApplyLinesFails(st: Lang, ls: seq<Line>)
    ensures ApplyLines(st, ls).Err? <==> exists k :: 0 <= k < |ls| && ls[k].Malformed?
    ensures ApplyLines(st, ls).Err? ==> ApplyLines(st, ls).error == ValueError
    decreases |ls|
  {
    if ls != [] && !ls[0].Malformed? {
      ApplyLinesFails(Apply(st, ls[0]), ls[1..]);
      if exists k :: 0 <= k < |ls| && ls[k].Malformed? {
        var k :| 0 <= k < |ls| && ls[k].Malformed?;
        assert ls[1..][k - 1] == ls[k];
      }
    }
  }

  /** A line that is empty once stripped is skipped: it changes nothing wherever it stands. */
  lemma BlankSkipped(st: Lang, a: seq<Line>, b: seq<Line>)
    ensures ApplyLines(st, a + [Blank] + b) == ApplyLines(st, a + b)
  {
    ApplyLinesAppend(st, a, [Blank] + b);
    ApplyLinesAppend(st, a, b);
    assert a + [Blank] + b == a + ([Blank] + b);
    assert ([Blank] + b)[1..] == b;
  }

  /** A line is blank exactly when it is all whitespace. */
  lemma BlankLine(raw: string)
    ensures Classify(raw) == Blank <==> forall k :: 0 <= k < |raw| ==> IsSpace(raw[k])
  {
    StripEmpty(raw);
  }

  /** A line raises exactly when, once stripped, it is not empty and lacks the "=" or the "." before it. */
  lemma MalformedLine(raw: string)
    ensures Classify(raw).Malformed? <==>
      var line := Strip(raw);
      line != "" && ('=' !in line || '.' !in SplitOnce(line, '=').value.0)
  {
  }

  // Lines as they are written in the file, and what each one is.

  /** "stat.NAME=D" is a stat line for NAME, whatever D holds, "=" included. */
  lemma StatLine(name: string, desc: string)
    requires '=' !in name && (desc == [] || !IsSpace(desc[|desc| - 1]))
    ensures Classify("stat." + name + "=" + desc) == Stat(name, desc)
  {
    var line := "stat." + name + "=" + desc;
    assert "stat" + "." == "stat.";
    LineParts("stat", name, desc);
    ClassifyOf(line, line, "stat." + name, desc, "stat", name);
  }

  /** "achievement.NAME.desc=D" sets the description of NAME. */
  lemma AchievementDescLine(name: string, desc: string)
    requires '=' !in name && (desc == [] || !IsSpace(desc[|desc| - 1]))
    ensures Classify("achievement." + name + ".desc=" + desc) == AchievementDesc(name, desc)
  {
    var full := name + ".desc";
    DescSuffix(name, full);
    assert "achievement." + name + ".desc=" + desc == "achievement." + full + "=" + desc by {
      assert ".desc" + "=" == ".desc=";
    }
    assert "achievement" + "." == "achievement.";
    LineParts("achievement", full, desc);
    var line := "achievement." + full + "=" + desc;
    ClassifyOf(line, line, "achievement." + full, desc, "achievement", full);
  }

  /** NAME + ".desc" ends in ".desc", loses it again with [:-5], and has no "=" if NAME has none. */
  lemma DescSuffix(name: string, full: string)
    requires full == name + ".desc"
    ensures EndsWith(full, ".desc") && full[..|full| - 5] == name
    ensures '=' !in name ==> '=' !in full
  {
    assert forall k :: 0 <= k < |full| ==> full[k] == if k < |name| then name[k] else ".desc"[k - |name|];
  }

  /** "achievement.NAME=D", NAME not ending in ".desc", sets the name text of NAME. */
  lemma AchievementNameLine(name: string, desc: string)
    requires '=' !in name && !EndsWith(name, ".desc") && (desc == [] || !IsSpace(desc[|desc| - 1]))
    ensures Classify("achievement." + name + "=" + desc) == AchievementName(name, desc)
  {
    assert "achievement" + "." == "achievement.";
    LineParts("achievement", name, desc);
    var line := "achievement." + name + "=" + desc;
    ClassifyOf(line, line, "achievement." + name, desc, "achievement", name);
  }

  /** "CATEGORY.NAME=D" strips to itself and splits at its "=" into "CATEGORY.NAME" and D. */
  lemma LineParts(category: string, name: string, desc: string)
    requires category != [] && !IsSpace(category[0]) && '=' !in category && '.' !in category
    requires '=' !in name && (desc == [] || !IsSpace(desc[|desc| - 1]))
    ensures var line := category + "." + name + "=" + desc;
      && Strip(line) == line
      && SplitOnce(line, '=') == Some((category + "." + name, desc))
      && SplitOnce(category + "." + name, '.') == Some((category, name))
  {
    var tag := category + "." + name;
    var line := tag + "=" + desc;
    assert line[0] == category[0];
    assert line[|line| - 1] == if desc == [] then '=' else desc[|desc| - 1];
    StripTrimmed(line);
    assert '=' !in tag by {
      assert forall k :: 0 <= k < |tag| ==> tag[k] == if k < |category| then category[k] else if k == |category| then '.' else name[k - |category| - 1];
    }
    SplitOnceOf(tag, '=', desc);
    SplitOnceOf(category, '.', name);
  }

  /** A line of a category other than stat and achievement is read and ignored. */
  lemma OtherCategory(st: Lang, raw: string, tag: string, desc: string, category: string, name: string)
    requires SplitOnce(Strip(raw), '=') == Some((tag, desc)) && SplitOnce(tag, '.') == Some((category, name))
    requires category != "stat" && category != "achievement"
    ensures Classify(raw) == Ignored
    ensures Apply(st, Classify(raw)) == st
  {
    ClassifyOf(raw, Strip(raw), tag, desc, category, name);
  }

  // The reference reading: each value comes from the last line that sets it.

  /** The value the last line of lines picked by pick gives, if any line is picked. */
  function Last(ls: seq<Line>, pick: Line -> Option<string>): Option<string>
    decreases |ls|
  {
    if ls == [] then None
    else
      match pick(ls[|ls| - 1])
      case Some(d) => Some(d)
      case None => Last(ls[..|ls| - 1], pick)
  }

  function Get(m: map<string, string>, k: string): Option<string>
  {
    if k in m then Some(m[k]) else None
  }

  function Or(a: Option<string>, b: Option<string>): Option<string>
  {
    if a.Some? then a else b
  }

  function StatOfName(n: string): Line -> Option<string>
  {
    (l: Line) => if l.Stat? && l.name == n then Some(l.desc) else None
  }

  function DescOfName(n: string): Line -> Option<string>
  {
    (l: Line) => if l.AchievementDesc? && l.name == n then Some(l.desc) else None
  }

  function NameOfName(n: string): Line -> Option<string>
  {
    (l: Line) => if l.AchievementName? && l.name == n then Some(l.desc) else None
  }

  function MentionOf(n: string): Line -> Option<string>
  {
    (l: Line) => if (l.AchievementDesc? || l.AchievementName?) && l.name == n then Some("") else None
  }

  /** The lines but the last, and the last, read one after the other. */
  lemma ApplyLast(st: Lang, ls: seq<Line>)
    requires ls != [] && ApplyLines(st, ls).Ok?
    ensures var init := ls[..|ls| - 1];
      && ApplyLines(st, init).Ok? && !ls[|ls| - 1].Malformed?
      && ApplyLines(st, ls).value == Apply(ApplyLines(st, init).value, ls[|ls| - 1])
  {
    var init, last := ls[..|ls| - 1], ls[|ls| - 1];
    assert ls == init + [last];
    ApplyLinesAppend(st, init, [last]);
    assert [last][1..] == [];
  }

  /** A later stat line for a name overwrites an earlier one: the stat is the last one given. */
  lemma {:induction false} StatIsLast(st: Lang, ls: seq<Line>, n: string)
    requires ApplyLines(st, ls).Ok?
    ensures Get(ApplyLines(st, ls).value.stat, n) == Or(Last(ls, StatOfName(n)), Get(st.stat, n))
    decreases |ls|
  {
    if ls != [] {
      ApplyLast(st, ls);
      StatIsLast(st, ls[..|ls| - 1], n);
    }
  }

  /** An achievement is in the result exactly when it was there before or some line names it. */
  lemma {:induction false} AchievementIsNamed(st: Lang, ls: seq<Line>, n: string)
    requires ApplyLines(st, ls).Ok?
    ensures n in ApplyLines(st, ls).value.achievement <==> n in st.achievement || Last(ls, MentionOf(n)).Some?
    decreases |ls|
  {
    if ls != [] {
      ApplyLast(st, ls);
      AchievementIsNamed(st, ls[..|ls| - 1], n);
    }
  }

  /** The description and the name text of an achievement are each the last one given. */
  lemma {:induction false} AchievementIsLast(st: Lang, ls: seq<Line>, n: string)
    requires ApplyLines(st, ls).Ok?
    ensures var r := ApplyLines(st, ls).value;
      && Get(EntryOf(r, n), "desc") == Or(Last(ls, DescOfName(n)), Get(EntryOf(st, n), "desc"))
      && Get(EntryOf(r, n), "name") == Or(Last(ls, NameOfName(n)), Get(EntryOf(st, n), "name"))
    decreases |ls|
  {
    if ls != [] {
      ApplyLast(st, ls);
      AchievementIsLast(st, ls[..|ls| - 1], n);
    }
  }
}
