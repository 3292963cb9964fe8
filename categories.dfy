/**
 * lib/categories.ts: the default expense categories and the lookup from a
 * category's stored icon name to its icon, with `MoreHorizontal` as the
 * fallback.
 */
module Categories {

  /** The icon components the table refers to, by their component names. */
  datatype Icon =
    | UtensilsCrossed | Car | ShoppingBag | Gamepad2 | Zap | Heart | ShoppingCart | Sparkles | MoreHorizontal

  /** A default category row: a `Category` without its database `id`. */
  datatype CategoryDefaults = CategoryDefaults(
    name: string, color: string, iconName: string, emoji: string, displayOrder: int)

  /** The name each icon component is exported under, which is also its key in `CATEGORY_ICONS`. */
  function IconName(icon: Icon): string
  {
    match icon
    case UtensilsCrossed => "UtensilsCrossed"
    case Car => "Car"
    case ShoppingBag => "ShoppingBag"
    case Gamepad2 => "Gamepad2"
    case Zap => "Zap"
    case Heart => "Heart"
    case ShoppingCart => "ShoppingCart"
    case Sparkles => "Sparkles"
    case MoreHorizontal => "MoreHorizontal"
  }

  const DEFAULT_CATEGORIES: seq<CategoryDefaults> := [
    CategoryDefaults("Food & Dining", "#ef4444", "UtensilsCrossed", "\U{1F37D}\U{FE0F}", 1),
    CategoryDefaults("Transportation", "#3b82f6", "Car", "\U{1F697}", 2),
    CategoryDefaults("Shopping", "#8b5cf6", "ShoppingBag", "\U{1F6CD}\U{FE0F}", 3),
    CategoryDefaults("Entertainment", "#f59e0b", "Gamepad2", "\U{1F3AE}", 4),
    CategoryDefaults("Bills & Utilities", "#10b981", "Zap", "\U{26A1}", 5),
    CategoryDefaults("Healthcare", "#ec4899", "Heart", "\U{1F3E5}", 6),
    CategoryDefaults("Groceries", "#84cc16", "ShoppingCart", "\U{1F6D2}", 7),
    CategoryDefaults("Personal Care", "#06b6d4", "Sparkles", "\U{1F485}", 8),
    CategoryDefaults("Other", "#6b7280", "MoreHorizontal", "\U{1F4E6}", 9)
  ]

  /** `CATEGORY_ICONS`: each icon under its own component name. */
  const CATEGORY_ICONS: map<string, Icon> := map[
    "UtensilsCrossed" := UtensilsCrossed,
    "Car" := Car,
    "ShoppingBag" := ShoppingBag,
    "Gamepad2" := Gamepad2,
    "Zap" := Zap,
    "Heart" := Heart,
    "ShoppingCart" := ShoppingCart,
    "Sparkles" := Sparkles,
    "MoreHorizontal" := MoreHorizontal
  ]

  /** `getCategoryIcon`: the icon registered under `iconName`, else `MoreHorizontal`. */
  function GetCategoryIcon(iconName: string): (icon: Icon)
    ensures icon == MoreHorizontal || IconName(icon) == iconName
  {
    if iconName in CATEGORY_ICONS then CATEGORY_ICONS[iconName] else MoreHorizontal
  }

  /** The table holds every icon under its own name and nothing else. */
  lemma {:induction false} IconTableExact(iconName: string)
    ensures iconName in CATEGORY_ICONS <==> exists icon: Icon :: IconName(icon) == iconName
    ensures iconName in CATEGORY_ICONS ==> IconName(CATEGORY_ICONS[iconName]) == iconName
  {
    if iconName in CATEGORY_ICONS {
      assert IconName(CATEGORY_ICONS[iconName]) == iconName;
    }
  }

  /** Looking an icon up by its own name finds it: the fallback is used only for unknown names. */
  lemma {:induction false} GetCategoryIconByName(icon: Icon)
    ensures GetCategoryIcon(IconName(icon)) == icon
  {
  }

  /** An unknown name gets the fallback icon. */
  lemma {:induction false} GetCategoryIconFallback(iconName: string)
    requires forall icon: Icon :: IconName(icon) != iconName
    ensures GetCategoryIcon(iconName) == MoreHorizontal
  {
    IconTableExact(iconName);
  }

  /** Every default category names a registered icon, so defaults never fall back (except `Other`, whose icon is the fallback itself). */
  lemma {:induction false} DefaultIconsRegistered()
    ensures forall i :: 0 <= i < |DEFAULT_CATEGORIES| ==>
      DEFAULT_CATEGORIES[i].iconName in CATEGORY_ICONS
      && IconName(GetCategoryIcon(DEFAULT_CATEGORIES[i].iconName)) == DEFAULT_CATEGORIES[i].iconName
  {
  }

  /** The display order of the defaults is 1..9 in list order, hence strictly increasing. */
  lemma {:induction false} DefaultDisplayOrder()
    ensures |DEFAULT_CATEGORIES| == 9
    ensures forall i :: 0 <= i < |DEFAULT_CATEGORIES| ==> DEFAULT_CATEGORIES[i].displayOrder == i + 1
    ensures forall i, j :: 0 <= i < j < |DEFAULT_CATEGORIES| ==>
      DEFAULT_CATEGORIES[i].displayOrder < DEFAULT_CATEGORIES[j].displayOrder
  {
  }

  /** The default names are pairwise distinct (their initials already are). */
  lemma {:induction false} DefaultNamesDistinct()
    ensures forall i, j :: 0 <= i < j < |DEFAULT_CATEGORIES| ==>
      DEFAULT_CATEGORIES[i].name != DEFAULT_CATEGORIES[j].name
  {
    var initials := "FTSEBHGPO";
    assert forall i :: 0 <= i < |DEFAULT_CATEGORIES| ==>
      |DEFAULT_CATEGORIES[i].name| > 0 && DEFAULT_CATEGORIES[i].name[0] == initials[i];
  }

  predicate IsHexDigit(c: char)
  {
    '0' <= c <= '9' || 'a' <= c <= 'f'
  }

  /** A `#rrggbb` colour. */
  predicate IsHexColor(s: string)
  {
    |s| == 7 && s[0] == '#' && forall i :: 1 <= i < 7 ==> IsHexDigit(s[i])
  }

  lemma {:induction false} DefaultColorsAreHex()
    ensures forall i :: 0 <= i < |DEFAULT_CATEGORIES| ==> IsHexColor(DEFAULT_CATEGORIES[i].color)
  {
  }
}
