/**
  The look and feel of the dock (`Style`), its defaults, its derivation from an
  egui visual theme, and the chained `StyleBuilder`.
 */
module DockStyle {
  import opened Wrappers
  import opened Paint

  /** Every parameter the dock reads when it draws panels, separators and tabs. */
  datatype Style = Style(
    padding: Option<Margin>,
    borderColor: Color32,
    borderWidth: real,
    selectionColor: Color32,      // previews where a dragged tab will land
    separatorWidth: real,
    separatorExtra: real,         // how close a separator may come to either edge
    separatorColor: Color32,
    tabBarBackgroundColor: Color32,
    tabOutlineColor: Color32,
    tabRounding: Rounding,
    tabBackgroundColor: Color32,
    tabTextColorUnfocused: Color32,
    tabTextColorFocused: Color32,
    closeTabColor: Color32,
    closeTabActiveColor: Color32,
    closeTabBackgroundColor: Color32,
    showCloseButtons: bool)

  /** `Style::default()`, with the values the builder's setters document. */
  function DefaultStyle(): (s: Style)
    ensures s.padding == None
    ensures s.borderColor == Black && s.borderWidth == 0.0
    ensures s.selectionColor == LinearMultiplied(FromRgb(0, 191, 255), 0.5)
    ensures s.separatorWidth == 1.0 && s.separatorExtra == 175.0 && s.separatorColor == Black
    ensures s.tabBarBackgroundColor == White && s.tabOutlineColor == Black
    ensures s.showCloseButtons
  {
    Style(
      padding := None,
      borderColor := Black,
      borderWidth := 0.0,
      selectionColor := LinearMultiplied(FromRgb(0, 191, 255), 0.5),
      separatorWidth := 1.0,
      separatorExtra := 175.0,
      separatorColor := Black,
      tabBarBackgroundColor := White,
      tabOutlineColor := Black,
      tabRounding := NoRounding,
      tabBackgroundColor := White,
      tabTextColorUnfocused := DarkGray,
      tabTextColorFocused := Black,
      closeTabColor := White,
      closeTabActiveColor := White,
      closeTabBackgroundColor := Gray,
      showCloseButtons := true)
  }

  /** The names of the fields of `Style`, so that "every other field is unchanged"
      can be said once. */
  datatype Field =
    | Padding | BorderColor | BorderWidth | SelectionColor
    | SeparatorWidth | SeparatorExtra | SeparatorColor
    | TabBarBackgroundColor | TabOutlineColor | TabRounding | TabBackgroundColor
    | TabTextColorUnfocused | TabTextColorFocused
    | CloseTabColor | CloseTabActiveColor | CloseTabBackgroundColor | ShowCloseButtons

  datatype FieldValue =
    | MarginValue(m: Option<Margin>)
    | ColorValue(c: Color32)
    | RealValue(v: real)
    | RoundingValue(rd: Rounding)
    | BoolValue(b: bool)

  function Get(s: Style, f: Field): FieldValue {
    match f
    case Padding => MarginValue(s.padding)
    case BorderColor => ColorValue(s.borderColor)
    case BorderWidth => RealValue(s.borderWidth)
    case SelectionColor => ColorValue(s.selectionColor)
    case SeparatorWidth => RealValue(s.separatorWidth)
    case SeparatorExtra => RealValue(s.separatorExtra)
    case SeparatorColor => ColorValue(s.separatorColor)
    case TabBarBackgroundColor => ColorValue(s.tabBarBackgroundColor)
    case TabOutlineColor => ColorValue(s.tabOutlineColor)
    case TabRounding => RoundingValue(s.tabRounding)
    case TabBackgroundColor => ColorValue(s.tabBackgroundColor)
    case TabTextColorUnfocused => ColorValue(s.tabTextColorUnfocused)
    case TabTextColorFocused => ColorValue(s.tabTextColorFocused)
    case CloseTabColor => ColorValue(s.closeTabColor)
    case CloseTabActiveColor => ColorValue(s.closeTabActiveColor)
    case CloseTabBackgroundColor => ColorValue(s.closeTabBackgroundColor)
    case ShowCloseButtons => BoolValue(s.showCloseButtons)
  }

  /** `s` and `t` agree on every field outside `changed`. */
  ghost predicate SameExcept(s: Style, t: Style, changed: set<Field>) {
    forall f :: f !in changed ==> Get(s, f) == Get(t, f)
  }

  /** The field list is complete: two styles that agree on every field are equal,
      so `SameExcept(s, t, {})` means `s == t`. */
  lemma FieldsDetermineStyle(s: Style, t: Style)
    requires SameExcept(s, t, {})
    ensures s == t
  {
    assert Get(s, Padding) == Get(t, Padding);
    assert Get(s, BorderColor) == Get(t, BorderColor);
    assert Get(s, BorderWidth) == Get(t, BorderWidth);
    assert Get(s, SelectionColor) == Get(t, SelectionColor);
    assert Get(s, SeparatorWidth) == Get(t, SeparatorWidth);
    assert Get(s, SeparatorExtra) == Get(t, SeparatorExtra);
    assert Get(s, SeparatorColor) == Get(t, SeparatorColor);
    assert Get(s, TabBarBackgroundColor) == Get(t, TabBarBackgroundColor);
    assert Get(s, TabOutlineColor) == Get(t, TabOutlineColor);
    assert Get(s, TabRounding) == Get(t, TabRounding);
    assert Get(s, TabBackgroundColor) == Get(t, TabBackgroundColor);
    assert Get(s, TabTextColorUnfocused) == Get(t, TabTextColorUnfocused);
    assert Get(s, TabTextColorFocused) == Get(t, TabTextColorFocused);
    assert Get(s, CloseTabColor) == Get(t, CloseTabColor);
    assert Get(s, CloseTabActiveColor) == Get(t, CloseTabActiveColor);
    assert Get(s, CloseTabBackgroundColor) == Get(t, CloseTabBackgroundColor);
    assert Get(s, ShowCloseButtons) == Get(t, ShowCloseButtons);
  }

  /** Changes made in two steps touch only the fields of either step. */
  lemma SameExceptCompose(s: Style, t: Style, u: Style, a: set<Field>, b: set<Field>)
    requires SameExcept(s, t, a) && SameExcept(t, u, b)
    ensures SameExcept(s, u, a + b)
  {
  }

  /** The colours an egui theme (`egui::Visuals`) supplies. */
  datatype EguiVisuals = EguiVisuals(
    selectionBgFill: Color32,
    faintBgColor: Color32,
    activeBgFill: Color32,   // `widgets.active.bg_fill`
    windowFill: Color32,
    textColor: Color32,
    strongTextColor: Color32)

  /** The fields `Style::from_egui` says, in its documentation, that it takes from the theme. */
  const DocumentedEguiFields: set<Field> := {
    SelectionColor, TabBarBackgroundColor, TabOutlineColor, TabBackgroundColor,
    SeparatorColor, BorderColor, CloseTabBackgroundColor, CloseTabColor, CloseTabActiveColor }

  /** The fields `Style::from_egui` actually takes from the theme. */
  const EguiFields: set<Field> := DocumentedEguiFields + {TabTextColorUnfocused, TabTextColorFocused}

  /** `Style::from_egui`: theme colours over the defaults. */
  function FromEgui(v: EguiVisuals): (s: Style)
    ensures SameExcept(DefaultStyle(), s, EguiFields)
    ensures s.tabTextColorUnfocused == v.textColor && s.tabTextColorFocused == v.strongTextColor
    ensures s.separatorColor == s.borderColor == s.tabOutlineColor == s.closeTabBackgroundColor == v.activeBgFill
  {
    DefaultStyle().(
      selectionColor := LinearMultiplied(v.selectionBgFill, 0.5),
      tabBarBackgroundColor := v.faintBgColor,
      tabOutlineColor := v.activeBgFill,
      tabBackgroundColor := v.windowFill,
      tabTextColorUnfocused := v.textColor,
      tabTextColorFocused := v.strongTextColor,
      separatorColor := v.activeBgFill,
      borderColor := v.activeBgFill,
      closeTabBackgroundColor := v.activeBgFill,
      closeTabColor := v.textColor,
      closeTabActiveColor := v.strongTextColor)
  }

  /** The documented list of overwritten fields is incomplete: a theme whose text
      colour differs from the default changes `tab_text_color_unfocused` too. */
  lemma FromEguiOverwritesUndocumentedFields()
    ensures exists v :: !SameExcept(DefaultStyle(), FromEgui(v), DocumentedEguiFields)
  {
    var v := EguiVisuals(Black, Black, Black, Black, White, White);
    assert Get(DefaultStyle(), TabTextColorUnfocused) != Get(FromEgui(v), TabTextColorUnfocused);
  }

  /** `StyleBuilder`: each setter takes the builder by value, replaces one field
      of the style it carries and hands the builder back. */
  datatype StyleBuilder = StyleBuilder(style: Style) {

    /** `StyleBuilder::new()`: building straight away gives the defaults. */
    static function New(): (b: StyleBuilder)
      ensures b.Build() == DefaultStyle()
    {
      StyleBuilder(DefaultStyle())
    }

    function WithPadding(padding: Option<Margin>): (b: StyleBuilder)
      ensures b.style.padding == padding && SameExcept(style, b.style, {Field.Padding})
    {
      StyleBuilder(style.(padding := padding))
    }

    function WithBorderColor(borderColor: Color32): (b: StyleBuilder)
      ensures b.style.borderColor == borderColor && SameExcept(style, b.style, {Field.BorderColor})
    {
      StyleBuilder(style.(borderColor := borderColor))
    }

    function WithBorderWidth(borderWidth: real): (b: StyleBuilder)
      ensures b.style.borderWidth == borderWidth && SameExcept(style, b.style, {Field.BorderWidth})
    {
      StyleBuilder(style.(borderWidth := borderWidth))
    }

    function WithSelectionColor(selectionColor: Color32): (b: StyleBuilder)
      ensures b.style.selectionColor == selectionColor && SameExcept(style, b.style, {Field.SelectionColor})
    {
      StyleBuilder(style.(selectionColor := selectionColor))
    }

    function WithSeparatorWidth(separatorWidth: real): (b: StyleBuilder)
      ensures b.style.separatorWidth == separatorWidth && SameExcept(style, b.style, {Field.SeparatorWidth})
    {
      StyleBuilder(style.(separatorWidth := separatorWidth))
    }

    function WithSeparatorExtra(separatorExtra: real): (b: StyleBuilder)
      ensures b.style.separatorExtra == separatorExtra && SameExcept(style, b.style, {Field.SeparatorExtra})
    {
      StyleBuilder(style.(separatorExtra := separatorExtra))
    }

    function WithSeparatorColor(separatorColor: Color32): (b: StyleBuilder)
      ensures b.style.separatorColor == separatorColor && SameExcept(style, b.style, {Field.SeparatorColor})
    {
      StyleBuilder(style.(separatorColor := separatorColor))
    }

    function WithTabBarBackground(color: Color32): (b: StyleBuilder)
      ensures b.style.tabBarBackgroundColor == color && SameExcept(style, b.style, {Field.TabBarBackgroundColor})
    {
      StyleBuilder(style.(tabBarBackgroundColor := color))
    }

    function WithTabOutlineColor(color: Color32): (b: StyleBuilder)
      ensures b.style.tabOutlineColor == color && SameExcept(style, b.style, {Field.TabOutlineColor})
    {
      StyleBuilder(style.(tabOutlineColor := color))
    }

    function WithTabRounding(rounding: Rounding): (b: StyleBuilder)
      ensures b.style.tabRounding == rounding && SameExcept(style, b.style, {Field.TabRounding})
    {
      StyleBuilder(style.(tabRounding := rounding))
    }

    function WithTabBackgroundColor(color: Color32): (b: StyleBuilder)
      ensures b.style.tabBackgroundColor == color && SameExcept(style, b.style, {Field.TabBackgroundColor})
    {
      StyleBuilder(style.(tabBackgroundColor := color))
    }

    function WithCloseTabColor(color: Color32): (b: StyleBuilder)
      ensures b.style.closeTabColor == color && SameExcept(style, b.style, {Field.CloseTabColor})
    {
      StyleBuilder(style.(closeTabColor := color))
    }

    function WithCloseTabActiveColorColor(color: Color32): (b: StyleBuilder)
      ensures b.style.closeTabActiveColor == color && SameExcept(style, b.style, {Field.CloseTabActiveColor})
    {
      StyleBuilder(style.(closeTabActiveColor := color))
    }

    function WithCloseTabBackgroundColorColor(color: Color32): (b: StyleBuilder)
      ensures b.style.closeTabBackgroundColor == color && SameExcept(style, b.style, {Field.CloseTabBackgroundColor})
    {
      StyleBuilder(style.(closeTabBackgroundColor := color))
    }

    function ShowCloseButtons(show: bool): (b: StyleBuilder)
      ensures b.style.showCloseButtons == show && SameExcept(style, b.style, {Field.ShowCloseButtons})
    {
      StyleBuilder(style.(showCloseButtons := show))
    }

    /** `StyleBuilder::build`: hands over the style, losing nothing; wrapping it
        again gives back this builder. */
    function Build(): (s: Style)
      ensures StyleBuilder(s) == this
    {
      style
    }
  }

  /** Two changes to the same style that touch only the fields in `changed`, and
      leave the same values there, produce the same style. With the setters'
      `SameExcept` contracts this makes setters on distinct fields commute, and
      makes a chain of setters equal to the base with just their fields replaced. */
  lemma SameChangesSameStyle(s: Style, t: Style, u: Style, changed: set<Field>)
    requires SameExcept(s, t, changed) && SameExcept(s, u, changed)
    requires forall f :: f in changed ==> Get(t, f) == Get(u, f)
    ensures t == u
  {
    FieldsDetermineStyle(t, u);
  }

  /** Any two setters on distinct fields commute, shown for the separator's
      width and margin on an arbitrary builder. */
  lemma SeparatorSettersCommute(b: StyleBuilder, extra: real, width: real)
    ensures b.WithSeparatorExtra(extra).WithSeparatorWidth(width) == b.WithSeparatorWidth(width).WithSeparatorExtra(extra)
  {
    var t := b.WithSeparatorExtra(extra).WithSeparatorWidth(width).style;
    var u := b.WithSeparatorWidth(width).WithSeparatorExtra(extra).style;
    SameExceptCompose(b.style, b.WithSeparatorExtra(extra).style, t, {SeparatorExtra}, {SeparatorWidth});
    SameExceptCompose(b.style, b.WithSeparatorWidth(width).style, u, {SeparatorWidth}, {SeparatorExtra});
    SameChangesSameStyle(b.style, t, u, {SeparatorExtra, SeparatorWidth});
  }

  /** A chain of three setters from a fresh builder builds the defaults with
      exactly those three fields replaced, and the reversed chain builds the same. */
  lemma BuilderChainSetsOnlyItsFields(extra: real, width: real, show: bool)
    ensures var s := StyleBuilder.New().WithSeparatorExtra(extra).WithSeparatorWidth(width).ShowCloseButtons(show).Build();
      && s.separatorExtra == extra && s.separatorWidth == width && s.showCloseButtons == show
      && SameExcept(DefaultStyle(), s, {SeparatorExtra, SeparatorWidth, ShowCloseButtons})
      && s == StyleBuilder.New().ShowCloseButtons(show).WithSeparatorWidth(width).WithSeparatorExtra(extra).Build()
  {
    var b0 := StyleBuilder.New();
    var b1 := b0.WithSeparatorExtra(extra);
    var b2 := b1.WithSeparatorWidth(width);
    var b3 := b2.ShowCloseButtons(show);
    SameExceptCompose(b0.style, b1.style, b2.style, {SeparatorExtra}, {SeparatorWidth});
    SameExceptCompose(b0.style, b2.style, b3.style, {SeparatorExtra, SeparatorWidth}, {ShowCloseButtons});
    var c1 := b0.ShowCloseButtons(show);
    var c2 := c1.WithSeparatorWidth(width);
    var c3 := c2.WithSeparatorExtra(extra);
    SameExceptCompose(b0.style, c1.style, c2.style, {ShowCloseButtons}, {SeparatorWidth});
    SameExceptCompose(b0.style, c2.style, c3.style, {ShowCloseButtons, SeparatorWidth}, {SeparatorExtra});
    SameChangesSameStyle(b0.style, b3.style, c3.style, {SeparatorExtra, SeparatorWidth, ShowCloseButtons});
  }

}
