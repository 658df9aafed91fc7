/**
 * The page-creation payload built for one entity in `createNotionPage`
 * (index.js, lines 90-209), keeping only the parts that carry entity data:
 * the icon and cover URLs, the database properties, and the four child
 * blocks. The constant literals around them (`object: 'block'`,
 * `type: 'text'`, the parent database) are not represented.
 */
module Payload {
  import opened Wrappers
  import opened Entities

  /** A child block of the page, by kind, with the text or URL it holds. */
  datatype Block =
    | Quote(content: Option<string>)
    | Paragraph(text: string)
    | Bookmark(url: string)

  /** The `properties` object: one value per database column. */
  datatype Properties = Properties(
    name: string,
    category: Option<string>,
    no: int,
    types: seq<TypeTag>,
    generation: Option<string>,
    spriteFile: Option<string>,
    height: int,
    weight: int,
    hp: int,
    attack: int,
    defense: int,
    spAttack: int,
    spDefense: int,
    speed: int)

  datatype Page = Page(
    icon: Option<string>,
    cover: Option<string>,
    properties: Properties,
    children: seq<Block>)

  const BulbapediaLabel: string := "View This Pok\U{e9}mon's Entry on Bulbapedia:"

  /**
   * The fixed body of every page: the flavour text as a quote, an empty
   * paragraph, the label paragraph, and a bookmark to the Bulbapedia entry.
   */
  function ToPage(e: Entity): (p: Page)
    ensures |p.children| == 4
    ensures p.children[0].Quote? && p.children[1] == Paragraph([])
    ensures p.children[2] == Paragraph(BulbapediaLabel) && p.children[3].Bookmark?
    ensures p.icon == p.properties.spriteFile
    ensures EntityOf(p) == Some(e)
  {
    Page(
      icon := e.sprite,
      cover := e.artwork,
      properties := Properties(
        name := e.name,
        category := e.category,
        no := e.number,
        types := e.types,
        generation := e.generation,
        spriteFile := e.sprite,
        height := e.height,
        weight := e.weight,
        hp := e.hp,
        attack := e.attack,
        defense := e.defense,
        spAttack := e.specialAttack,
        spDefense := e.specialDefense,
        speed := e.speed),
      children := [
        Quote(e.flavorText),
        Paragraph([]),
        Paragraph(BulbapediaLabel),
        Bookmark(e.bulbUrl)])
  }

  /**
   * Reads an entity back from a page laid out as `ToPage` lays it out; any
   * other page gives `None`.
   */
  function EntityOf(p: Page): Option<Entity> {
    if |p.children| == 4 && p.children[0].Quote? && p.children[3].Bookmark?
    then
      var props := p.properties;
      Some(Entity(
        name := props.name,
        number := props.no,
        types := props.types,
        height := props.height,
        weight := props.weight,
        hp := props.hp,
        attack := props.attack,
        defense := props.defense,
        specialAttack := props.spAttack,
        specialDefense := props.spDefense,
        speed := props.speed,
        sprite := p.icon,
        artwork := p.cover,
        bulbUrl := p.children[3].url,
        flavorText := p.children[0].content,
        category := props.category,
        generation := props.generation))
    else None
  }

  /**
   * `ToPage` only renames and reshapes (every field of the entity can be read
   * back from its page, see its last `ensures`), so no two entities give the
   * same page.
   */
  lemma PageInjective(e: Entity, e': Entity)
    requires ToPage(e) == ToPage(e')
    ensures e == e'
  {
    assert Some(e) == EntityOf(ToPage(e)) == EntityOf(ToPage(e')) == Some(e');
  }

  /**
   * An entity whose enrichment failed still maps to a page; its quote,
   * category and generation are simply absent.
   */
  lemma BarePage(e: Entity)
    requires Bare(e)
    ensures ToPage(e).children[0] == Quote(None)
    ensures ToPage(e).properties.category.None? && ToPage(e).properties.generation.None?
  {
  }
}
