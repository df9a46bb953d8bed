/** The shapes of the two stored entities, as the data-model interfaces declare them. */
module Models {
  import opened Wrappers

  /** A menu entry. Prices are JavaScript numbers in the store; the model keeps integral ones. */
  datatype MenuItem = MenuItem(
    id: string,
    restaurantId: string,
    name: string,
    description: string,
    price: int,
    image: string,
    category: string)

  /**
   * An embedded menu group. The interface types these as `any`; this is the shape that
   * the restaurant page reads from them (a category name and its items).
   */
  datatype MenuCategory = MenuCategory(name: string, items: seq<MenuItem>)

  /** A restaurant record; the optional properties of the interface are `Option`s. */
  datatype Restaurant = Restaurant(
    id: string,
    name: string,
    logo: string,
    coverPhoto: Option<string>,
    location: string,
    description: string,
    themeColor: Option<string>,
    locked: Option<bool>,
    menuCategories: Option<seq<MenuCategory>>,
    menuItems: Option<seq<MenuItem>>)
}
