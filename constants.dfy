/** The two lookup tables over `ComplianceStatus`: the Tailwind colour
    classes and the shield icon shown for each status. */
module Constants {
  import opened Types
  import opened Strings

  /** The background, text and border classes of one Tailwind hue. */
  function HueClasses(hue: string): string
  {
    "bg-" + hue + "-100 text-" + hue + "-800 border-" + hue + "-200"
  }

  /** "bg-green-100 text-green-800 border-green-200" */
  const Green: string := HueClasses("green")
  /** "bg-amber-100 text-amber-800 border-amber-200" */
  const Amber: string := HueClasses("amber")
  /** "bg-red-100 text-red-800 border-red-200" */
  const Red: string := HueClasses("red")

  /** `STATUS_COLORS`: one entry per status, so the lookup is total. */
  function StatusColor(s: ComplianceStatus): (r: string)
    ensures r in {Green, Amber, Red}
  {
    match s
    case Compliant => Green
    case LikelyCompliant => Green
    case PartiallyCompliant => Amber
    case NotFound => Red
    case LikelyNonCompliant => Red
  }

  datatype Icon = ShieldCheck | ShieldQuestion | ShieldAlert

  /** `STATUS_ICONS`: one entry per status, so the lookup is total. */
  function StatusIcon(s: ComplianceStatus): Icon
  {
    match s
    case Compliant => ShieldCheck
    case LikelyCompliant => ShieldCheck
    case PartiallyCompliant => ShieldQuestion
    case NotFound => ShieldAlert
    case LikelyNonCompliant => ShieldAlert
  }

  /** The colour table groups statuses into green (the compliant pair),
      amber (partial) and red (the non-compliant pair), and the three colours
      differ. */
  lemma ColorGroups(s: ComplianceStatus)
    ensures StatusColor(s) == Green <==> s == Compliant || s == LikelyCompliant
    ensures StatusColor(s) == Amber <==> s == PartiallyCompliant
    ensures StatusColor(s) == Red <==> s == NotFound || s == LikelyNonCompliant
  {
    assert Green != Amber && Green != Red && Amber != Red by {
      assert Green[3] != Amber[3] && Green[3] != Red[3] && Amber[3] != Red[3];
    }
  }

  /** The icon table makes exactly the same grouping as the colour table. */
  lemma IconsGroupLikeColors(a: ComplianceStatus, b: ComplianceStatus)
    ensures StatusIcon(a) == StatusIcon(b) <==> StatusColor(a) == StatusColor(b)
  {
    ColorGroups(a);
    ColorGroups(b);
  }

  /** The class list of one hue splits into its three classes. */
  lemma {:induction false} HueTokens(hue: string)
    requires forall i :: 0 <= i < |hue| ==> hue[i] != ' '
    ensures Split(HueClasses(hue), ' ') == ["bg-" + hue + "-100", "text-" + hue + "-800", "border-" + hue + "-200"]
  {
    var bg, fg, border := "bg-" + hue + "-100", "text-" + hue + "-800", "border-" + hue + "-200";
    assert forall i :: 0 <= i < |bg| ==> bg[i] != ' ' by {
      forall i | 0 <= i < |bg| ensures bg[i] != ' ' {
        if 3 <= i < 3 + |hue| { assert bg[i] == hue[i - 3]; }
      }
    }
    assert forall i :: 0 <= i < |fg| ==> fg[i] != ' ' by {
      forall i | 0 <= i < |fg| ensures fg[i] != ' ' {
        if 5 <= i < 5 + |hue| { assert fg[i] == hue[i - 5]; }
      }
    }
    assert forall i :: 0 <= i < |border| ==> border[i] != ' ' by {
      forall i | 0 <= i < |border| ensures border[i] != ' ' {
        if 7 <= i < 7 + |hue| { assert border[i] == hue[i - 7]; }
      }
    }
    assert HueClasses(hue) == bg + [' '] + (fg + [' '] + border);
    SplitAtFirst(bg, ' ', fg + [' '] + border);
    SplitAtFirst(fg, ' ', border);
    SplitNoSeparator(border, ' ');
  }

  /** A colour class list split on single spaces: at least two tokens, a
      `bg-` class first and a `text-` class second (the summary card takes
      tokens 0 and 1). */
  lemma ColorTokens(s: ComplianceStatus)
    ensures |Split(StatusColor(s), ' ')| >= 2
    ensures "bg-" <= Split(StatusColor(s), ' ')[0]
    ensures "text-" <= Split(StatusColor(s), ' ')[1]
  {
    if s == Compliant || s == LikelyCompliant {
      HueTokens("green");
    } else if s == PartiallyCompliant {
      HueTokens("amber");
    } else {
      HueTokens("red");
    }
  }
}
