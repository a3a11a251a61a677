/** UserDriverManager: the list of user-space sensors an application has registered. */
module UserDrivers {
  import opened Lang
  import opened Seqs
  import opened UserSensors

  class UserDriverManager {
    var sensorList: seq<UserSensor>

    constructor()
      ensures sensorList == []
    {
      sensorList := [];
    }

    /** `add`: the sensor goes to the end, even if it is already in the list. */
    method RegisterSensor(sensor: UserSensor)
      modifies this
      ensures sensorList == old(sensorList) + [sensor]
    {
      sensorList := sensorList + [sensor];
    }

    /** `remove` takes out the first occurrence (sensors compare by identity) and keeps the
        order of the rest; a sensor not in the list throws and changes nothing. */
    method UnregisterSensor(sensor: UserSensor) returns (o: Outcome)
      modifies this
      ensures sensor !in old(sensorList) ==> o == Fail(NotFound) && sensorList == old(sensorList)
      ensures sensor in old(sensorList) ==>
                o == Pass
                && |sensorList| == |old(sensorList)| - 1
                && sensorList == old(sensorList)[..IndexOf(old(sensorList), sensor)]
                                 + old(sensorList)[IndexOf(old(sensorList), sensor) + 1..]
    {
      if sensor !in sensorList {
        return Fail(NotFound);
      }
      RemoveFirstAt(sensorList, sensor);
      sensorList := RemoveFirst(sensorList, sensor);
      o := Pass;
    }
  }

  /** Registering a sensor that is not yet in the list and then unregistering it gives
      back the list as it was. */
  lemma {:induction false} RegisterUnregisterRoundTrip(list: seq<UserSensor>, sensor: UserSensor)
    requires sensor !in list
    ensures sensor in list + [sensor]
    ensures RemoveFirst(list + [sensor], sensor) == list
  {
    var l := list + [sensor];
    assert l[|list|] == sensor;
    RemoveFirstAt(l, sensor);
    assert IndexOf(l, sensor) == |list| by {
      assert sensor !in l[..|list|] by { assert l[..|list|] == list; }
    }
    assert l[..|list|] == list;
  }
}
