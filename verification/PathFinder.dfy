/** HDF5PathFinder: the first path under which each hard-linked object was met. */
module PathFinder {

  class HDF5PathFinder {
    var idToNameMap: map<string, string>

    /** Whether the object has been met; an empty entry does not count as a visit. */
    ghost predicate Met(id: string)
      reads this
    {
      id in idToNameMap && idToNameMap[id] != ""
    }

    constructor ()
      ensures idToNameMap == map[]
    {
      idToNameMap := map[];
    }

    /** Looking an id up with operator[] inserts an empty name when it is missing. */
    method Visited(id: string) returns (v: bool)
      modifies this
      ensures v == old(Met(id))
      ensures idToNameMap == old(if id in idToNameMap then idToNameMap else idToNameMap[id := ""])
    {
      if id !in idToNameMap {
        idToNameMap := idToNameMap[id := ""];
      }
      v := idToNameMap[id] != "";
    }

    method Add(id: string, name: string) returns (added: bool)
      modifies this
      ensures added == !old(Met(id))
      ensures idToNameMap == if added then old(idToNameMap)[id := name] else old(idToNameMap)
    {
      var v := Visited(id);
      if !v {
        idToNameMap := idToNameMap[id := name];
        return true;
      } else {
        return false;
      }
    }

    method GetName(id: string) returns (name: string)
      modifies this
      ensures name == old(if id in idToNameMap then idToNameMap[id] else "")
      ensures idToNameMap == old(idToNameMap)[id := name]
    {
      if id !in idToNameMap {
        idToNameMap := idToNameMap[id := ""];
      }
      name := idToNameMap[id];
    }
  }
}
