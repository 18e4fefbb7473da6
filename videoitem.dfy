/** The six-field video record (VideoItem): the object with its setters, and the
    immutable value the rest of the model stores once an item is filled in. */
module Videos {

  /** A snapshot of a VideoItem's six fields. */
  datatype Item = Item(id: string, title: string, subTitle: string, thumbnail: string,
                       duration: string, timestamp: string)

  /** The ids of a list of items, in the same order. */
  function Ids(items: seq<Item>): (r: seq<string>)
    ensures |r| == |items|
    ensures forall i :: 0 <= i < |items| ==> r[i] == items[i].id
  {
    seq(|items|, i requires 0 <= i < |items| => items[i].id)
  }

  /** VideoItem: six strings, each overwritten by its own setter; the getters are the
      field reads. */
  class VideoItem {
    var id: string
    var title: string
    var subTitle: string
    var thumbnail: string
    var duration: string
    var timestamp: string

    /** A new item has all six fields empty. */
    constructor ()
      ensures id == "" && title == "" && subTitle == ""
      ensures thumbnail == "" && duration == "" && timestamp == ""
    {
      id, title, subTitle := "", "", "";
      thumbnail, duration, timestamp := "", "", "";
    }

    method SetId(x: string)
      modifies this
      ensures id == x
      ensures title == old(title) && subTitle == old(subTitle) && thumbnail == old(thumbnail)
      ensures duration == old(duration) && timestamp == old(timestamp)
    {
      id := x;
    }

    method SetTitle(x: string)
      modifies this
      ensures title == x
      ensures id == old(id) && subTitle == old(subTitle) && thumbnail == old(thumbnail)
      ensures duration == old(duration) && timestamp == old(timestamp)
    {
      title := x;
    }

    method SetSubTitle(x: string)
      modifies this
      ensures subTitle == x
      ensures id == old(id) && title == old(title) && thumbnail == old(thumbnail)
      ensures duration == old(duration) && timestamp == old(timestamp)
    {
      subTitle := x;
    }

    method SetThumbnail(x: string)
      modifies this
      ensures thumbnail == x
      ensures id == old(id) && title == old(title) && subTitle == old(subTitle)
      ensures duration == old(duration) && timestamp == old(timestamp)
    {
      thumbnail := x;
    }

    method SetDuration(x: string)
      modifies this
      ensures duration == x
      ensures id == old(id) && title == old(title) && subTitle == old(subTitle)
      ensures thumbnail == old(thumbnail) && timestamp == old(timestamp)
    {
      duration := x;
    }

    method SetTimestamp(x: string)
      modifies this
      ensures timestamp == x
      ensures id == old(id) && title == old(title) && subTitle == old(subTitle)
      ensures thumbnail == old(thumbnail) && duration == old(duration)
    {
      timestamp := x;
    }

    /** The six fields as a value. */
    function Value(): (v: Item)
      reads this
    {
      Item(id, title, subTitle, thumbnail, duration, timestamp)
    }
  }

  /** The construct-then-set-all-six sequence the playlist and favorites code runs for
      every new item: each getter then returns the value given to its setter. */
  method MakeItem(id: string, title: string, subTitle: string, thumbnail: string,
                  duration: string, timestamp: string) returns (v: Item)
    ensures v.id == id && v.title == title && v.subTitle == subTitle
    ensures v.thumbnail == thumbnail && v.duration == duration && v.timestamp == timestamp
  {
    var item := new VideoItem();
    item.SetId(id);
    item.SetTitle(title);
    item.SetSubTitle(subTitle);
    item.SetThumbnail(thumbnail);
    item.SetDuration(duration);
    item.SetTimestamp(timestamp);
    v := item.Value();
  }
}
