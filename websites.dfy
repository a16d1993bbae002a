/**
 * The bookmark shortcuts: entries, the seed list, the default icon and the
 * edit applied by `saveWebsite`. Websites are shown in stored order.
 */
module Websites {

  import opened Wrappers
  import opened Records
  import opened Text

  /** `{id, name, url, icon}`. */
  datatype Website = Website(id: int, name: string, url: string, icon: string)

  function WebsiteId(w: Website): int
  {
    w.id
  }

  /** The globe emoji stored when the icon field is left blank. */
  const DefaultIcon: string := "\U{1F310}"

  /** The list used when nothing is stored yet. */
  function SeedWebsites(): seq<Website>
  {
    [ Website(1, "Gmail", "https://gmail.com", "\U{1F4E7}"),
      Website(2, "Google", "https://google.com", "\U{1F50D}"),
      Website(3, "YouTube", "https://youtube.com", "\U{1F4FA}") ]
  }

  /** `icon.trim() || '🌐'`: a stored icon is never blank; it is the typed
      icon without surrounding whitespace, or the globe when only whitespace
      was typed. */
  function StoredIcon(rawIcon: string): (r: string)
    ensures r != []
    ensures AllWhitespace(rawIcon) ==> r == DefaultIcon
    ensures !AllWhitespace(rawIcon) ==> r == Trim(rawIcon)
  {
    var icon := Trim(rawIcon);
    assert icon == [] <==> AllWhitespace(rawIcon) by {
      TrimBlank(rawIcon);
    }
    if icon == [] then DefaultIcon else icon
  }

  /** The edit branch of `saveWebsite`: the edited website takes the new
      name, URL and icon and keeps its id; no other website changes. */
  function Reworded(websites: seq<Website>, id: int, name: string, url: string, icon: string): (r: seq<Website>)
    ensures |r| == |websites|
    ensures forall j :: 0 <= j < |websites| ==>
      && r[j].id == websites[j].id
      && r[j] == (if FirstIndex(websites, WebsiteId, id) == Some(j)
                  then Website(websites[j].id, name, url, icon) else websites[j])
  {
    UpdateFirst(websites, WebsiteId, id, (w: Website) => w.(name := name, url := url, icon := icon))
  }
}
