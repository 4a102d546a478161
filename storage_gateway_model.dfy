/**
 * Amazon.StorageGateway.Model.ListVolumeRecoveryPointsResponse: a response
 * whose result property is allocated on first read.
 *
 * The fields of ListVolumeRecoveryPointsResult are not part of this model; a
 * freshly constructed object stands for the empty result.
 */
module StorageGatewayModel {

  class ListVolumeRecoveryPointsResult {
    constructor ()
    {
    }
  }

  class ListVolumeRecoveryPointsResponse {
    var listVolumeRecoveryPointsResult: ListVolumeRecoveryPointsResult?

    constructor ()
      ensures listVolumeRecoveryPointsResult == null
    {
      listVolumeRecoveryPointsResult := null;
    }

    /** The getter: allocates and stores an empty result when the field is
        null, and returns the stored object, which is never null. */
    method GetListVolumeRecoveryPointsResult() returns (r: ListVolumeRecoveryPointsResult)
      modifies this
      ensures old(listVolumeRecoveryPointsResult) == null ==> fresh(r)
      ensures old(listVolumeRecoveryPointsResult) != null ==> r == old(listVolumeRecoveryPointsResult)
      ensures listVolumeRecoveryPointsResult == r
    {
      if listVolumeRecoveryPointsResult == null {
        listVolumeRecoveryPointsResult := new ListVolumeRecoveryPointsResult();
      }
      return listVolumeRecoveryPointsResult;
    }

    /** The setter: stores the value, null included. */
    method SetListVolumeRecoveryPointsResult(value: ListVolumeRecoveryPointsResult?)
      modifies this
      ensures listVolumeRecoveryPointsResult == value
    {
      listVolumeRecoveryPointsResult := value;
    }

    /** Two reads with no write in between return the same object. */
    method GetTwice() returns (first: ListVolumeRecoveryPointsResult, second: ListVolumeRecoveryPointsResult)
      modifies this
      ensures first == second && listVolumeRecoveryPointsResult == first
      ensures old(listVolumeRecoveryPointsResult) == null ==> fresh(first)
    {
      first := GetListVolumeRecoveryPointsResult();
      second := GetListVolumeRecoveryPointsResult();
    }

    /** After writing a non-null value, a read returns that value. */
    method SetThenGet(value: ListVolumeRecoveryPointsResult) returns (r: ListVolumeRecoveryPointsResult)
      modifies this
      ensures r == value && listVolumeRecoveryPointsResult == value
    {
      SetListVolumeRecoveryPointsResult(value);
      r := GetListVolumeRecoveryPointsResult();
    }

    /** After writing null, a read allocates a new empty result, distinct
        from what was stored before. */
    method SetNullThenGet() returns (r: ListVolumeRecoveryPointsResult)
      modifies this
      ensures fresh(r) && listVolumeRecoveryPointsResult == r
      ensures r != old(listVolumeRecoveryPointsResult)
    {
      SetListVolumeRecoveryPointsResult(null);
      r := GetListVolumeRecoveryPointsResult();
    }
  }
}
